/** The forum's database: the rows of each table the engine touches and the
    `Database` object whose tables the request handlers update in place. */
module Store {
  import opened Common

  datatype VotableType = Question | Answer
  datatype Direction = Up | Down

  /** A polymorphic reference (votable_type, votable_id). */
  datatype Votable = Votable(kind: VotableType, id: int)

  /** The identity of a vote row: (user_id, votable_type, votable_id). */
  datatype VoteKey = VoteKey(voter: UserId, item: Votable)

  datatype VoteRow = VoteRow(key: VoteKey, dir: Direction)

  datatype QuestionRow = QuestionRow(author: UserId, title: Bytes, description: Bytes, viewCount: int)

  datatype AnswerRow = AnswerRow(question: int, author: UserId, content: Bytes, accepted: bool, createdAt: int)

  /** The notification types the code creates: 'answer' and 'accept'. */
  datatype NotificationKind = AnswerPosted | AnswerAccepted

  datatype NotificationRow = NotificationRow(
    recipient: UserId, kind: NotificationKind, title: Bytes, message: Bytes,
    related: Option<int>, isRead: bool, createdAt: int)

  /** No two vote rows share a (user, votable_type, votable_id) key. */
  ghost predicate UniqueVoteKeys(votes: seq<VoteRow>) {
    forall i, j :: 0 <= i < j < |votes| ==> votes[i].key != votes[j].key
  }

  /** Among the answers of any one question at most one is accepted. */
  ghost predicate AtMostOneAccepted(answers: map<int, AnswerRow>) {
    forall a, b ::
      a in answers && b in answers && answers[a].accepted && answers[b].accepted
      && answers[a].question == answers[b].question
      ==> a == b
  }

  /** The author of a votable, if the votable exists. */
  function ItemAuthor(questions: map<int, QuestionRow>, answers: map<int, AnswerRow>, item: Votable): (r: Option<UserId>)
    ensures r.Some? <==> (item.kind == Question && item.id in questions) || (item.kind == Answer && item.id in answers)
  {
    match item.kind
    case Question => if item.id in questions then Some(questions[item.id].author) else None
    case Answer => if item.id in answers then Some(answers[item.id].author) else None
  }

  /** Every key of an AUTO_INCREMENT table lies below its counter. */
  ghost predicate IdsBelow<T>(rows: map<int, T>, next: int) {
    0 < next && forall id :: id in rows ==> 0 < id < next
  }

  /** Every tag id lies below the tags counter. */
  ghost predicate TagIdsBelow(tags: map<Bytes, int>, next: int) {
    0 < next && forall name :: name in tags ==> 0 < tags[name] < next
  }

  class Database {
    /** users.reputation, keyed by users.id */
    var users: map<UserId, int>
    var questions: map<int, QuestionRow>
    var answers: map<int, AnswerRow>
    var votes: seq<VoteRow>
    var notifications: seq<NotificationRow>
    /** tags: name -> id */
    var tags: map<Bytes, int>
    /** question_tags rows (question_id, tag_id) */
    var questionTags: seq<(int, int)>
    /** the AUTO_INCREMENT counters of questions, answers and tags */
    var nextQuestionId: int
    var nextAnswerId: int
    var nextTagId: int

    ghost predicate Valid()
      reads this
    {
      && UniqueVoteKeys(votes)
      && AtMostOneAccepted(answers)
      && IdsBelow(questions, nextQuestionId)
      && IdsBelow(answers, nextAnswerId)
      && TagIdsBelow(tags, nextTagId)
    }

    constructor ()
      ensures Valid()
      ensures users == map[] && questions == map[] && answers == map[]
      ensures votes == [] && notifications == [] && tags == map[] && questionTags == []
    {
      users, questions, answers := map[], map[], map[];
      votes, notifications := [], [];
      tags, questionTags := map[], [];
      nextQuestionId, nextAnswerId, nextTagId := 1, 1, 1;
    }
  }
}
