/** includes/functions.php: the aggregate reads over the vote and
    notification tables, the relative-time buckets, and the notification
    append. */
module Functions {
  import opened Common
  import opened Store

  // ---------------------------------------------------------------- timeAgo

  /** The bucket `timeAgo` renders, with its whole count ("3 hours ago"). */
  datatype Ago = JustNow | MinutesAgo(n: int) | HoursAgo(n: int) | DaysAgo(n: int)
               | MonthsAgo(n: int) | YearsAgo(n: int)

  const Minute := 60
  const Hour := 3600
  const Day := 86400
  const Month := 2592000
  const Year := 31536000

  /** timeAgo, given the elapsed seconds (the clock read is left to the caller). */
  function TimeAgo(elapsed: int): (r: Ago)
    ensures r.JustNow? <==> elapsed < Minute
    ensures r.MinutesAgo? <==> Minute <= elapsed < Hour
    ensures r.HoursAgo? <==> Hour <= elapsed < Day
    ensures r.DaysAgo? <==> Day <= elapsed < Month
    ensures r.MonthsAgo? <==> Month <= elapsed < Year
    ensures r.YearsAgo? <==> Year <= elapsed
    ensures r.MinutesAgo? ==> 1 <= r.n < 60 && r.n * Minute <= elapsed < (r.n + 1) * Minute
    ensures r.HoursAgo? ==> 1 <= r.n < 24 && r.n * Hour <= elapsed < (r.n + 1) * Hour
    ensures r.DaysAgo? ==> 1 <= r.n < 30 && r.n * Day <= elapsed < (r.n + 1) * Day
    ensures r.MonthsAgo? ==> 1 <= r.n <= 12 && r.n * Month <= elapsed < (r.n + 1) * Month
    ensures r.YearsAgo? ==> 1 <= r.n && r.n * Year <= elapsed < (r.n + 1) * Year
  {
    if elapsed < Minute then JustNow
    else if elapsed < Hour then MinutesAgo(elapsed / Minute)
    else if elapsed < Day then HoursAgo(elapsed / Hour)
    else if elapsed < Month then DaysAgo(elapsed / Day)
    else if elapsed < Year then MonthsAgo(elapsed / Month)
    else YearsAgo(elapsed / Year)
  }

  /** The position of a bucket, from "just now" (0) to years (5). */
  function Rank(a: Ago): nat {
    match a
    case JustNow => 0
    case MinutesAgo(_) => 1
    case HoursAgo(_) => 2
    case DaysAgo(_) => 3
    case MonthsAgo(_) => 4
    case YearsAgo(_) => 5
  }

  /** Older items never fall into an earlier bucket. */
  lemma TimeAgoMonotone(e1: int, e2: int)
    requires e1 <= e2
    ensures Rank(TimeAgo(e1)) <= Rank(TimeAgo(e2))
  {
  }

  // ------------------------------------------------------------ vote counts

  /** Number of rows voting `d` on `item`. */
  function CountDir(votes: seq<VoteRow>, item: Votable, d: Direction): (c: nat)
    ensures c <= |votes|
  {
    if votes == [] then 0
    else CountDir(votes[..|votes| - 1], item, d)
         + (if votes[|votes| - 1].key.item == item && votes[|votes| - 1].dir == d then 1 else 0)
  }

  /** getVoteCount's SUM(up) - SUM(down) over the votes on (votable_type, votable_id). */
  function VoteCount(votes: seq<VoteRow>, item: Votable): (c: int)
    ensures c <= CountDir(votes, item, Up) && -c <= CountDir(votes, item, Down)
    ensures -|votes| <= c <= |votes|
  {
    CountDir(votes, item, Up) - CountDir(votes, item, Down)
  }

  /** getVoteCount: 0 when the query throws; SUM over no rows is NULL, read as 0. */
  function GetVoteCount(votes: seq<VoteRow>, item: Votable, queryFails: bool): (c: int)
    ensures queryFails ==> c == 0
    ensures !queryFails ==> c == CountDir(votes, item, Up) - CountDir(votes, item, Down)
  {
    if queryFails then 0 else VoteCount(votes, item)
  }

  /** With no votes on the item the count is 0. */
  lemma {:induction false} NoVotesCountZero(votes: seq<VoteRow>, item: Votable)
    requires forall i :: 0 <= i < |votes| ==> votes[i].key.item != item
    ensures VoteCount(votes, item) == 0
  {
    if votes != [] {
      NoVotesCountZero(votes[..|votes| - 1], item);
    }
  }

  /** The value a vote contributes: CASE WHEN vote_type = 'up' THEN 1 ELSE -1. */
  function Value(d: Direction): int {
    if d == Up then 1 else -1
  }

  /** SUM(CASE WHEN up THEN 1 ELSE -1) over the votes whose votable is in `items`. */
  function Score(votes: seq<VoteRow>, items: set<Votable>): (s: int)
    ensures -|votes| <= s <= |votes|
  {
    if votes == [] then 0
    else Score(votes[..|votes| - 1], items)
         + (if votes[|votes| - 1].key.item in items then Value(votes[|votes| - 1].dir) else 0)
  }

  /** The two formulas of the source agree: getVoteCount's up-minus-down equals
      the reputation query's signed sum restricted to one votable. */
  lemma {:induction false} VoteCountIsScore(votes: seq<VoteRow>, item: Votable)
    ensures VoteCount(votes, item) == Score(votes, {item})
  {
    if votes != [] {
      VoteCountIsScore(votes[..|votes| - 1], item);
    }
  }

  /** Score over a union of disjoint item sets splits into a sum. */
  lemma {:induction false} ScoreUnion(votes: seq<VoteRow>, a: set<Votable>, b: set<Votable>)
    requires a !! b
    ensures Score(votes, a + b) == Score(votes, a) + Score(votes, b)
  {
    if votes != [] {
      ScoreUnion(votes[..|votes| - 1], a, b);
    }
  }

  // ------------------------------------------------------------- reputation

  /** The votables a user authored: their questions and their answers. */
  function OwnedItems(questions: map<int, QuestionRow>, answers: map<int, AnswerRow>, u: UserId): (s: set<Votable>)
    ensures forall item :: item in s <==> ItemAuthor(questions, answers, item) == Some(u)
  {
    (set id | id in questions && questions[id].author == u :: Votable(Question, id))
    + (set id | id in answers && answers[id].author == u :: Votable(Answer, id))
  }

  /** The unclamped sum of vote values over everything `u` authored. */
  function RawReputation(votes: seq<VoteRow>, questions: map<int, QuestionRow>, answers: map<int, AnswerRow>, u: UserId): (r: int)
    ensures -|votes| <= r <= |votes|
  {
    Score(votes, OwnedItems(questions, answers, u))
  }

  /** The content of different users never overlaps. */
  lemma OwnedItemsDisjoint(questions: map<int, QuestionRow>, answers: map<int, AnswerRow>, u: UserId, v: UserId)
    requires u != v
    ensures OwnedItems(questions, answers, u) !! OwnedItems(questions, answers, v)
  {
  }

  // ----------------------------------------------------------------- stats

  datatype UserStats = UserStats(questions: nat, answers: nat, reputation: int, acceptedAnswers: nat)

  function QuestionsBy(questions: map<int, QuestionRow>, u: UserId): set<int> {
    set id | id in questions && questions[id].author == u
  }

  function AnswersBy(answers: map<int, AnswerRow>, u: UserId): set<int> {
    set id | id in answers && answers[id].author == u
  }

  function AcceptedBy(answers: map<int, AnswerRow>, u: UserId): (s: set<int>)
    ensures s <= AnswersBy(answers, u)
  {
    set id | id in answers && answers[id].author == u && answers[id].accepted
  }

  /** getUserStats; `queryFails` stands for any of its four queries throwing. */
  function GetUserStats(votes: seq<VoteRow>, questions: map<int, QuestionRow>, answers: map<int, AnswerRow>,
                        u: UserId, queryFails: bool): (r: UserStats)
    ensures r.reputation >= 0
    ensures r.acceptedAnswers <= r.answers
    ensures queryFails ==> r == UserStats(0, 0, 0, 0)
    ensures !queryFails ==> r.questions == |QuestionsBy(questions, u)| && r.answers == |AnswersBy(answers, u)|
    ensures !queryFails ==> r.acceptedAnswers == |AcceptedBy(answers, u)|
    ensures !queryFails && RawReputation(votes, questions, answers, u) >= 0 ==>
              r.reputation == RawReputation(votes, questions, answers, u)
    ensures !queryFails && RawReputation(votes, questions, answers, u) < 0 ==> r.reputation == 0
  {
    if queryFails then UserStats(0, 0, 0, 0)
    else
      var raw := RawReputation(votes, questions, answers, u);
      SubsetCardinality(AcceptedBy(answers, u), AnswersBy(answers, u));
      UserStats(|QuestionsBy(questions, u)|, |AnswersBy(answers, u)|,
                if raw < 0 then 0 else raw, |AcceptedBy(answers, u)|)
  }

  lemma {:induction false} SubsetCardinality(a: set<int>, b: set<int>)
    requires a <= b
    ensures |a| <= |b|
  {
    assert b == a + (b - a);
  }

  // ------------------------------------------------------------- user vote

  /** The direction of the first vote row with this key. */
  function Lookup(votes: seq<VoteRow>, key: VoteKey): (r: Option<Direction>)
    ensures r.None? <==> forall i :: 0 <= i < |votes| ==> votes[i].key != key
    ensures r.Some? ==> VoteRow(key, r.value) in votes
  {
    if votes == [] then None
    else if votes[0].key == key then Some(votes[0].dir)
    else Lookup(votes[1..], key)
  }

  /** With unique keys the looked-up direction is that of the only matching row. */
  lemma {:induction false} LookupUnique(votes: seq<VoteRow>, key: VoteKey, i: int)
    requires UniqueVoteKeys(votes)
    requires 0 <= i < |votes| && votes[i].key == key
    ensures Lookup(votes, key) == Some(votes[i].dir)
  {
    if i > 0 {
      LookupUnique(votes[1..], key, i - 1);
    }
  }

  /** getUserVote: null for a missing (or zero) user id or a failed query,
      otherwise the stored direction, or null when there is no row. */
  function GetUserVote(votes: seq<VoteRow>, userId: Option<UserId>, item: Votable, queryFails: bool): (r: Option<Direction>)
    ensures (userId.None? || userId == Some(0) || queryFails) ==> r.None?
    ensures r.Some? ==> VoteRow(VoteKey(userId.value, item), r.value) in votes
    ensures userId.Some? && userId.value != 0 && !queryFails && r.None? ==>
              forall i :: 0 <= i < |votes| ==> votes[i].key != VoteKey(userId.value, item)
  {
    if userId.None? || userId.value == 0 || queryFails then None
    else Lookup(votes, VoteKey(userId.value, item))
  }

  // ---------------------------------------------------------- notifications

  /** COUNT(*) of `u`'s notifications with is_read = 0. */
  function UnreadCount(log: seq<NotificationRow>, u: UserId): (c: nat)
    ensures c <= |log|
  {
    if log == [] then 0
    else UnreadCount(log[..|log| - 1], u) + (if log[|log| - 1].recipient == u && !log[|log| - 1].isRead then 1 else 0)
  }

  /** The count is zero exactly when none of `u`'s notifications is unread. */
  lemma {:induction false} UnreadCountZero(log: seq<NotificationRow>, u: UserId)
    ensures UnreadCount(log, u) == 0 <==> forall i :: 0 <= i < |log| ==> !(log[i].recipient == u && !log[i].isRead)
  {
    if log != [] {
      var n := |log| - 1;
      UnreadCountZero(log[..n], u);
      assert forall i :: 0 <= i < n ==> log[..n][i] == log[i];
    }
  }

  /** getUnreadNotificationCount: 0 when the query throws. */
  function GetUnreadNotificationCount(log: seq<NotificationRow>, u: UserId, queryFails: bool): (c: nat)
    ensures queryFails ==> c == 0
    ensures !queryFails ==> c == UnreadCount(log, u)
  {
    if queryFails then 0 else UnreadCount(log, u)
  }

  /** Appending a row adds one to the unread count of its recipient only. */
  lemma UnreadCountAppend(log: seq<NotificationRow>, n: NotificationRow, u: UserId)
    ensures UnreadCount(log + [n], u) == UnreadCount(log, u) + (if n.recipient == u && !n.isRead then 1 else 0)
  {
    assert (log + [n])[..|log|] == log;
  }

  /** createNotification: appends exactly one unread row, or, when the INSERT
      throws, swallows the error, appends nothing and returns false. */
  method CreateNotification(db: Database, recipient: UserId, kind: NotificationKind, title: Bytes, message: Bytes,
                            related: Option<int>, now: int, fails: bool) returns (ok: bool)
    requires db.Valid()
    modifies db`notifications
    ensures db.Valid()
    ensures ok == !fails
    ensures ok ==> db.notifications == old(db.notifications) + [NotificationRow(recipient, kind, title, message, related, false, now)]
    ensures !ok ==> db.notifications == old(db.notifications)
  {
    if fails {
      return false;
    }
    db.notifications := db.notifications + [NotificationRow(recipient, kind, title, message, related, false, now)];
    return true;
  }
}
