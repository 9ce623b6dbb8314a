/** api/accept_answer.php: the question's author marks one answer as the
    accepted one. Inside a transaction every answer of the question is
    unmarked and the target is marked; the answer's author is notified. */
module AcceptApi {
  import opened Common
  import opened Store
  import opened Functions

  datatype AcceptError =
    | AuthenticationRequired | InvalidRequestMethod | AnswerIdRequired
    | AnswerNotFound | NotQuestionAuthor | DatabaseError

  datatype AcceptResponse = Accepted | AcceptFailed(error: AcceptError)

  /** The answer row joined with its question, as the handler's SELECT finds it. */
  predicate AnswerFound(questions: map<int, QuestionRow>, answers: map<int, AnswerRow>, aid: int) {
    aid in answers && answers[aid].question in questions
  }

  /** The checks of accept_answer.php before the transaction, in source order. */
  function CheckAccept(user: Option<UserId>, isPost: bool, answerId: Option<int>,
                       questions: map<int, QuestionRow>, answers: map<int, AnswerRow>): (r: Result<int, AcceptError>)
    ensures r == Err(AuthenticationRequired) <==> user.None?
    ensures r == Err(InvalidRequestMethod) <==> user.Some? && !isPost
    ensures r == Err(AnswerIdRequired) <==> user.Some? && isPost && answerId.None?
    ensures r == Err(AnswerNotFound) <==>
              user.Some? && isPost && answerId.Some? && !AnswerFound(questions, answers, answerId.value)
    ensures r == Err(NotQuestionAuthor) <==>
              && user.Some? && isPost && answerId.Some? && AnswerFound(questions, answers, answerId.value)
              && questions[answers[answerId.value].question].author != user.value
    ensures r.Ok? <==>
              && user.Some? && isPost && answerId.Some? && AnswerFound(questions, answers, answerId.value)
              && questions[answers[answerId.value].question].author == user.value
    ensures r.Ok? ==> answerId == Some(r.value)
  {
    if user.None? then Err(AuthenticationRequired)
    else if !isPost then Err(InvalidRequestMethod)
    else if answerId.None? then Err(AnswerIdRequired)
    else if !AnswerFound(questions, answers, answerId.value) then Err(AnswerNotFound)
    else if questions[answers[answerId.value].question].author != user.value then Err(NotQuestionAuthor)
    else Ok(answerId.value)
  }

  /** Who wrote the answer plays no part in the authorization. */
  lemma CheckIgnoresAnswerAuthor(user: Option<UserId>, isPost: bool, aid: int,
                                 questions: map<int, QuestionRow>, answers: map<int, AnswerRow>, writer: UserId)
    requires aid in answers
    ensures CheckAccept(user, isPost, Some(aid), questions, answers[aid := answers[aid].(author := writer)])
            == CheckAccept(user, isPost, Some(aid), questions, answers)
  {
  }

  /** UPDATE answers SET is_accepted = 0 WHERE question_id = q */
  function ClearAccepted(answers: map<int, AnswerRow>, q: int): (r: map<int, AnswerRow>)
    ensures r.Keys == answers.Keys
    ensures forall a :: a in r && answers[a].question == q ==> !r[a].accepted
    ensures forall a :: a in r ==> r[a] == answers[a].(accepted := r[a].accepted)
    ensures forall a :: a in r && answers[a].question != q ==> r[a] == answers[a]
  {
    map a | a in answers :: if answers[a].question == q then answers[a].(accepted := false) else answers[a]
  }

  /** UPDATE answers SET is_accepted = 1 WHERE id = aid */
  function SetAccepted(answers: map<int, AnswerRow>, aid: int): (r: map<int, AnswerRow>)
    ensures r.Keys == answers.Keys
    ensures aid in r ==> r[aid] == answers[aid].(accepted := true)
    ensures forall a :: a in r && a != aid ==> r[a] == answers[a]
  {
    if aid in answers then answers[aid := answers[aid].(accepted := true)] else answers
  }

  /** The two updates of the transaction, in order. */
  function Accept(answers: map<int, AnswerRow>, aid: int): (r: map<int, AnswerRow>)
    requires aid in answers
    ensures r.Keys == answers.Keys
    ensures forall a :: a in r ==> r[a] == answers[a].(accepted := r[a].accepted)
    ensures forall a :: a in r && answers[a].question == answers[aid].question ==> (r[a].accepted <==> a == aid)
    ensures forall a :: a in r && answers[a].question != answers[aid].question ==> r[a] == answers[a]
  {
    SetAccepted(ClearAccepted(answers, answers[aid].question), aid)
  }

  /** Acceptance keeps "at most one accepted answer per question". */
  lemma AcceptKeepsInvariant(answers: map<int, AnswerRow>, aid: int)
    requires aid in answers && AtMostOneAccepted(answers)
    ensures AtMostOneAccepted(Accept(answers, aid))
  {
    var r := Accept(answers, aid);
    forall a, b | a in r && b in r && r[a].accepted && r[b].accepted && r[a].question == r[b].question
      ensures a == b
    {
      if answers[a].question == answers[aid].question {
        assert a == aid && b == aid;
      } else {
        assert r[a] == answers[a] && r[b] == answers[b];
      }
    }
  }

  /** Accepting the accepted answer again leaves the same acceptance state. */
  lemma AcceptIdempotent(answers: map<int, AnswerRow>, aid: int)
    requires aid in answers
    ensures Accept(Accept(answers, aid), aid) == Accept(answers, aid)
  {
    var once := Accept(answers, aid);
    var twice := Accept(once, aid);
    assert forall a :: a in twice ==> twice[a] == once[a];
  }

  /** Accepting a second answer of the same question replaces the first. */
  lemma AcceptReplaces(answers: map<int, AnswerRow>, x: int, y: int)
    requires x in answers && y in answers && x != y
    requires answers[x].question == answers[y].question
    ensures !Accept(Accept(answers, x), y)[x].accepted
    ensures Accept(Accept(answers, x), y)[y].accepted
  {
  }

  /** The statements of the transaction, numbered for fault injection. */
  const UnmarkStep := 1
  const MarkStep := 2
  const NotifyStep := 3
  const CommitStep := 4

  function AcceptMessage(questionTitle: Bytes): Bytes {
    Lit("Your answer to '") + questionTitle + Lit("' has been accepted!")
  }

  /** accept_answer.php. The lookup before the transaction is taken not to fail.
      The notification is sent on every successful call, and a failed
      notification insert is swallowed by createNotification. */
  method AcceptAnswer(db: Database, user: Option<UserId>, isPost: bool, answerId: Option<int>, now: int, fault: Fault)
    returns (resp: AcceptResponse)
    requires db.Valid()
    modifies db`answers, db`notifications
    ensures db.Valid()
    ensures CheckAccept(user, isPost, answerId, db.questions, old(db.answers)).Err? ==>
              resp == AcceptFailed(CheckAccept(user, isPost, answerId, db.questions, old(db.answers)).error)
    ensures resp.AcceptFailed? ==> db.answers == old(db.answers) && db.notifications == old(db.notifications)
    ensures CheckAccept(user, isPost, answerId, db.questions, old(db.answers)).Ok? ==>
              var aid := answerId.value;
              var a := old(db.answers)[aid];
              if fault == FailAt(UnmarkStep) || fault == FailAt(MarkStep) || fault == FailAt(CommitStep)
              then resp == AcceptFailed(DatabaseError)
              else
                && resp == Accepted
                && db.answers == Accept(old(db.answers), aid)
                && db.notifications ==
                     old(db.notifications)
                     + (if a.author != user.value && fault != FailAt(NotifyStep)
                        then [NotificationRow(a.author, AnswerAccepted, Lit("Answer Accepted"),
                                              AcceptMessage(db.questions[a.question].title), Some(aid), false, now)]
                        else [])
  {
    var check := CheckAccept(user, isPost, answerId, db.questions, db.answers);
    if check.Err? {
      return AcceptFailed(check.error);
    }
    resp := AcceptTransaction(db, check.value, user.value, now, fault);
  }

  /** The transaction of accept_answer.php for an answer the checks let through:
      unmark, mark, notify the answer's author unless it is the caller, commit;
      a throw from any statement but the swallowed notification rolls back. */
  method AcceptTransaction(db: Database, aid: int, caller: UserId, now: int, fault: Fault)
    returns (resp: AcceptResponse)
    requires db.Valid() && AnswerFound(db.questions, db.answers, aid)
    modifies db`answers, db`notifications
    ensures db.Valid()
    ensures resp.AcceptFailed? ==> db.answers == old(db.answers) && db.notifications == old(db.notifications)
    ensures var a := old(db.answers)[aid];
            if fault == FailAt(UnmarkStep) || fault == FailAt(MarkStep) || fault == FailAt(CommitStep)
            then resp == AcceptFailed(DatabaseError)
            else
              && resp == Accepted
              && db.answers == Accept(old(db.answers), aid)
              && db.notifications ==
                   old(db.notifications)
                   + (if a.author != caller && fault != FailAt(NotifyStep)
                      then [NotificationRow(a.author, AnswerAccepted, Lit("Answer Accepted"),
                                            AcceptMessage(db.questions[a.question].title), Some(aid), false, now)]
                      else [])
  {
    var a := db.answers[aid];
    var title := db.questions[a.question].title;

    // beginTransaction: remember the state a rollback returns to
    var savedAnswers, savedNotifications := db.answers, db.notifications;

    if fault == FailAt(UnmarkStep) {
      return AcceptFailed(DatabaseError);
    }
    db.answers := ClearAccepted(db.answers, a.question);

    if fault == FailAt(MarkStep) {
      db.answers := savedAnswers;
      return AcceptFailed(DatabaseError);
    }
    db.answers := SetAccepted(db.answers, aid);
    AcceptKeepsInvariant(savedAnswers, aid);

    if a.author != caller {
      var _ := CreateNotification(db, a.author, AnswerAccepted, Lit("Answer Accepted"), AcceptMessage(title),
                                  Some(aid), now, fault == FailAt(NotifyStep));
    }

    if fault == FailAt(CommitStep) {
      db.answers, db.notifications := savedAnswers, savedNotifications;
      return AcceptFailed(DatabaseError);
    }
    resp := Accepted;
  }
}
