/** api/vote.php: the vote request handler. A request passes an ordered chain
    of checks, then toggles the caller's vote row (insert, flip in place, or
    delete on repeat), reads back the vote count, and overwrites the stored
    reputation of the content's author, inside one transaction. */
module VoteApi {
  import opened Common
  import opened Store
  import opened Functions

  /** The decoded JSON body; a field is None when it is not set. */
  datatype VoteInput = VoteInput(votableId: Option<int>, votableType: Option<Bytes>, voteType: Option<Bytes>)

  datatype VoteError =
    | AuthenticationRequired | InvalidRequestMethod | MissingParameters
    | InvalidVotableType | InvalidVoteType | ContentNotFound | OwnContent | DatabaseError

  datatype VoteResponse = Recorded(voteCount: int, userVote: Option<Direction>) | Rejected(error: VoteError)

  /** A request that passed the checks made before any database access. */
  datatype Ballot = Ballot(voter: UserId, item: Votable, dir: Direction)

  function ParseVotableType(s: Bytes): (r: Option<VotableType>)
    ensures r == Some(Question) <==> s == Lit("question")
    ensures r == Some(Answer) <==> s == Lit("answer")
  {
    if s == Lit("question") then Some(Question)
    else if s == Lit("answer") then Some(Answer)
    else None
  }

  function ParseDirection(s: Bytes): (r: Option<Direction>)
    ensures r == Some(Up) <==> s == Lit("up")
    ensures r == Some(Down) <==> s == Lit("down")
  {
    if s == Lit("up") then Some(Up)
    else if s == Lit("down") then Some(Down)
    else None
  }

  /** The checks of vote.php before the database is opened, in source order:
      authentication, method, presence of the three parameters, the two enums. */
  function CheckRequest(user: Option<UserId>, isPost: bool, input: VoteInput): (r: Result<Ballot, VoteError>)
    ensures r == Err(AuthenticationRequired) <==> user.None?
    ensures r == Err(InvalidRequestMethod) <==> user.Some? && !isPost
    ensures r == Err(MissingParameters) <==>
              user.Some? && isPost && (input.votableId.None? || input.votableType.None? || input.voteType.None?)
    ensures r == Err(InvalidVotableType) <==>
              && user.Some? && isPost
              && input.votableId.Some? && input.votableType.Some? && input.voteType.Some?
              && ParseVotableType(input.votableType.value).None?
    ensures r == Err(InvalidVoteType) <==>
              && user.Some? && isPost
              && input.votableId.Some? && input.votableType.Some? && input.voteType.Some?
              && ParseVotableType(input.votableType.value).Some? && ParseDirection(input.voteType.value).None?
    ensures r.Ok? <==>
              && user.Some? && isPost
              && input.votableId.Some? && input.votableType.Some? && input.voteType.Some?
              && ParseVotableType(input.votableType.value).Some? && ParseDirection(input.voteType.value).Some?
    ensures r.Ok? ==>
              && r.value.voter == user.value && r.value.item.id == input.votableId.value
              && Some(r.value.item.kind) == ParseVotableType(input.votableType.value)
              && Some(r.value.dir) == ParseDirection(input.voteType.value)
  {
    if user.None? then Err(AuthenticationRequired)
    else if !isPost then Err(InvalidRequestMethod)
    else if input.votableId.None? || input.votableType.None? || input.voteType.None? then Err(MissingParameters)
    else
      match ParseVotableType(input.votableType.value)
      case None => Err(InvalidVotableType)
      case Some(kind) =>
        match ParseDirection(input.voteType.value)
        case None => Err(InvalidVoteType)
        case Some(dir) => Ok(Ballot(user.value, Votable(kind, input.votableId.value), dir))
  }

  // ------------------------------------------------------------ the toggle

  /** DELETE FROM votes WHERE (user, type, id) = key: the rows with other keys, in order. */
  function DeleteKey(votes: seq<VoteRow>, key: VoteKey): (r: seq<VoteRow>)
    ensures |r| <= |votes|
    ensures forall i :: 0 <= i < |r| ==> r[i].key != key && r[i] in votes
    ensures forall x :: x in r <==> x in votes && x.key != key
  {
    if votes == [] then []
    else DeleteKey(votes[..|votes| - 1], key)
         + (if votes[|votes| - 1].key == key then [] else [votes[|votes| - 1]])
  }

  /** UPDATE votes SET vote_type = d WHERE (user, type, id) = key. */
  function SetDirection(votes: seq<VoteRow>, key: VoteKey, d: Direction): (r: seq<VoteRow>)
    ensures |r| == |votes|
    ensures forall i :: 0 <= i < |r| ==> r[i].key == votes[i].key
    ensures forall i :: 0 <= i < |r| ==> r[i].dir == if votes[i].key == key then d else votes[i].dir
  {
    if votes == [] then []
    else SetDirection(votes[..|votes| - 1], key, d)
         + [if votes[|votes| - 1].key == key then VoteRow(key, d) else votes[|votes| - 1]]
  }

  datatype Toggled = Toggled(rows: seq<VoteRow>, userVote: Option<Direction>)

  /** The three-way transition of vote.php lines 74-91 on the votes table. */
  function Toggle(votes: seq<VoteRow>, key: VoteKey, d: Direction): (r: Toggled)
    ensures r.userVote == if Lookup(votes, key) == Some(d) then None else Some(d)
    ensures |r.rows| <= |votes| + 1
  {
    match Lookup(votes, key)
    case None => Toggled(votes + [VoteRow(key, d)], Some(d))
    case Some(prev) =>
      if prev == d then Toggled(DeleteKey(votes, key), None)
      else Toggled(SetDirection(votes, key, d), Some(d))
  }

  /** What a user's vote contributes to a sum: +1, -1, or nothing. */
  function Contribution(v: Option<Direction>): int {
    if v.None? then 0 else Value(v.value)
  }

  lemma {:induction false} DeleteKeyAbsent(votes: seq<VoteRow>, key: VoteKey)
    requires forall i :: 0 <= i < |votes| ==> votes[i].key != key
    ensures DeleteKey(votes, key) == votes
  {
    if votes != [] {
      DeleteKeyAbsent(votes[..|votes| - 1], key);
    }
  }

  /** The delete removes every row with the key and keeps every other row as
      often as it occurred. */
  lemma {:induction false} DeleteKeyMultiset(votes: seq<VoteRow>, key: VoteKey, x: VoteRow)
    ensures multiset(DeleteKey(votes, key))[x] == if x.key == key then 0 else multiset(votes)[x]
  {
    if votes != [] {
      var init, last := votes[..|votes| - 1], votes[|votes| - 1];
      DeleteKeyMultiset(init, key, x);
      assert votes == init + [last];
      var kept: seq<VoteRow> := if last.key == key then [] else [last];
      assert DeleteKey(votes, key) == DeleteKey(init, key) + kept;
      assert multiset(votes) == multiset(init) + multiset{last};
      assert multiset(DeleteKey(votes, key)) == multiset(DeleteKey(init, key)) + multiset(kept);
    }
  }

  lemma {:induction false} DeleteKeyUnique(votes: seq<VoteRow>, key: VoteKey)
    requires UniqueVoteKeys(votes)
    ensures UniqueVoteKeys(DeleteKey(votes, key))
  {
    if votes != [] {
      var init, last := votes[..|votes| - 1], votes[|votes| - 1];
      DeleteKeyUnique(init, key);
      var r := DeleteKey(init, key);
      forall i | 0 <= i < |r| ensures r[i].key != last.key {
        var j :| 0 <= j < |init| && init[j] == r[i];
        assert votes[j] == r[i];
      }
    }
  }

  lemma {:induction false} DeleteKeyTwice(votes: seq<VoteRow>, key: VoteKey)
    ensures DeleteKey(DeleteKey(votes, key), key) == DeleteKey(votes, key)
  {
    var r := DeleteKey(votes, key);
    DeleteKeyAbsent(r, key);
  }

  lemma {:induction false} DeleteKeyOfSetDirection(votes: seq<VoteRow>, key: VoteKey, d: Direction)
    ensures DeleteKey(SetDirection(votes, key, d), key) == DeleteKey(votes, key)
  {
    if votes != [] {
      var init := votes[..|votes| - 1];
      DeleteKeyOfSetDirection(init, key, d);
      var s := SetDirection(votes, key, d);
      assert s[..|s| - 1] == SetDirection(init, key, d);
    }
  }

  lemma {:induction false} ScoreAppend(votes: seq<VoteRow>, row: VoteRow, items: set<Votable>)
    ensures Score(votes + [row], items) == Score(votes, items) + (if row.key.item in items then Value(row.dir) else 0)
  {
    assert (votes + [row])[..|votes|] == votes;
  }

  /** Deleting the one row with this key removes exactly its value from any score. */
  lemma {:induction false} ScoreDeleteKey(votes: seq<VoteRow>, key: VoteKey, i: int, items: set<Votable>)
    requires UniqueVoteKeys(votes)
    requires 0 <= i < |votes| && votes[i].key == key
    ensures Score(DeleteKey(votes, key), items)
            == Score(votes, items) - (if key.item in items then Value(votes[i].dir) else 0)
  {
    var n := |votes| - 1;
    var init, last := votes[..n], votes[n];
    var r0 := DeleteKey(init, key);
    assert DeleteKey(votes, key) == r0 + (if last.key == key then [] else [last]);
    assert Score(votes, items) == Score(init, items) + (if last.key.item in items then Value(last.dir) else 0);
    if i == n {
      assert forall j :: 0 <= j < n ==> init[j].key != key;
      DeleteKeyAbsent(init, key);
      assert DeleteKey(votes, key) == init;
    } else {
      assert last.key != key;
      assert UniqueVoteKeys(init);
      ScoreDeleteKey(init, key, i, items);
      ScoreAppend(r0, last, items);
    }
  }

  /** Flipping the one row with this key replaces its value in any score. */
  lemma {:induction false} ScoreSetDirection(votes: seq<VoteRow>, key: VoteKey, d: Direction, i: int, items: set<Votable>)
    requires UniqueVoteKeys(votes)
    requires 0 <= i < |votes| && votes[i].key == key
    ensures Score(SetDirection(votes, key, d), items)
            == Score(votes, items) + (if key.item in items then Value(d) - Value(votes[i].dir) else 0)
  {
    var n := |votes| - 1;
    var init, last := votes[..n], votes[n];
    var s := SetDirection(votes, key, d);
    assert s == SetDirection(init, key, d) + [s[n]];
    ScoreAppend(SetDirection(init, key, d), s[n], items);
    if i == n {
      assert forall j :: 0 <= j < |init| ==> init[j].key != key;
      SetDirectionAbsent(init, key, d);
    } else {
      ScoreSetDirection(init, key, d, i, items);
    }
  }

  lemma SetDirectionAbsent(votes: seq<VoteRow>, key: VoteKey, d: Direction)
    requires forall i :: 0 <= i < |votes| ==> votes[i].key != key
    ensures SetDirection(votes, key, d) == votes
  {
    var s := SetDirection(votes, key, d);
    assert forall i :: 0 <= i < |s| ==> s[i] == votes[i];
  }

  /** After the toggle, looking the key up gives the returned user_vote. */
  lemma ToggleLookup(votes: seq<VoteRow>, key: VoteKey, d: Direction)
    ensures Lookup(Toggle(votes, key, d).rows, key) == Toggle(votes, key, d).userVote
  {
    var t := Toggle(votes, key, d);
    match Lookup(votes, key)
    case None =>
      var rows := votes + [VoteRow(key, d)];
      assert rows[|votes|].key == key;
      var r := Lookup(rows, key);
      var j :| 0 <= j < |rows| && rows[j] == VoteRow(key, r.value);
      assert j == |votes|;
    case Some(prev) =>
      if prev != d {
        var j :| 0 <= j < |votes| && votes[j] == VoteRow(key, prev);
        assert t.rows[j].key == key;
      }
  }

  /** Rows of other users and other items are never touched: the rows
      with a different key are the same rows, in the same order. */
  lemma ToggleFrame(votes: seq<VoteRow>, key: VoteKey, d: Direction)
    ensures DeleteKey(Toggle(votes, key, d).rows, key) == DeleteKey(votes, key)
  {
    match Lookup(votes, key)
    case None =>
      assert (votes + [VoteRow(key, d)])[..|votes|] == votes;
    case Some(prev) =>
      if prev == d { DeleteKeyTwice(votes, key); } else { DeleteKeyOfSetDirection(votes, key, d); }
  }

  /** At most one row per (user, votable_type, votable_id) after every toggle. */
  lemma ToggleUnique(votes: seq<VoteRow>, key: VoteKey, d: Direction)
    requires UniqueVoteKeys(votes)
    ensures UniqueVoteKeys(Toggle(votes, key, d).rows)
  {
    match Lookup(votes, key)
    case None =>
    case Some(prev) =>
      if prev == d { DeleteKeyUnique(votes, key); }
  }

  /** Voting the same direction twice from no vote leaves the table as it was. */
  lemma ToggleTwice(votes: seq<VoteRow>, key: VoteKey, d: Direction)
    requires Lookup(votes, key).None?
    ensures Toggle(Toggle(votes, key, d).rows, key, d) == Toggled(votes, None)
  {
    var once := votes + [VoteRow(key, d)];
    assert Toggle(votes, key, d) == Toggled(once, Some(d));
    ToggleLookup(votes, key, d);
    assert Toggle(once, key, d) == Toggled(DeleteKey(once, key), None);
    assert once[..|votes|] == votes;
    assert DeleteKey(once, key) == DeleteKey(votes, key);
    DeleteKeyAbsent(votes, key);
  }

  /** Any sum over a set of votables moves by the change of the caller's own vote,
      and only if the toggled votable is in the set. */
  lemma ToggleScore(votes: seq<VoteRow>, key: VoteKey, d: Direction, items: set<Votable>)
    requires UniqueVoteKeys(votes)
    ensures Score(Toggle(votes, key, d).rows, items)
            == Score(votes, items)
               + (if key.item in items
                  then Contribution(Toggle(votes, key, d).userVote) - Contribution(Lookup(votes, key))
                  else 0)
  {
    match Lookup(votes, key)
    case None =>
      ScoreAppend(votes, VoteRow(key, d), items);
    case Some(prev) =>
      var j :| 0 <= j < |votes| && votes[j] == VoteRow(key, prev);
      if prev == d {
        ScoreDeleteKey(votes, key, j, items);
      } else {
        ScoreSetDirection(votes, key, d, j, items);
      }
  }

  /** The count returned for the votable moves by exactly the change of the caller's vote. */
  lemma ToggleVoteCount(votes: seq<VoteRow>, key: VoteKey, d: Direction)
    requires UniqueVoteKeys(votes)
    ensures VoteCount(Toggle(votes, key, d).rows, key.item)
            == VoteCount(votes, key.item) + Contribution(Toggle(votes, key, d).userVote) - Contribution(Lookup(votes, key))
  {
    VoteCountIsScore(votes, key.item);
    VoteCountIsScore(Toggle(votes, key, d).rows, key.item);
    ToggleScore(votes, key, d, {key.item});
  }

  /** The author's reputation moves by the same change; nobody else's moves. */
  lemma ToggleReputation(votes: seq<VoteRow>, questions: map<int, QuestionRow>, answers: map<int, AnswerRow>,
                         key: VoteKey, d: Direction, u: UserId)
    requires UniqueVoteKeys(votes)
    ensures RawReputation(Toggle(votes, key, d).rows, questions, answers, u)
            == RawReputation(votes, questions, answers, u)
               + (if ItemAuthor(questions, answers, key.item) == Some(u)
                  then Contribution(Toggle(votes, key, d).userVote) - Contribution(Lookup(votes, key))
                  else 0)
  {
    ToggleScore(votes, key, d, OwnedItems(questions, answers, u));
  }

  // ------------------------------------------------------------ the handler

  /** The statements of the transaction, numbered for fault injection. */
  const SelectStep := 1
  const WriteStep := 2
  const CountStep := 3
  const ReputationStep := 4
  const CommitStep := 5

  /** vote.php. The content lookup before the transaction is taken not to fail. */
  method CastVote(db: Database, user: Option<UserId>, isPost: bool, input: VoteInput, fault: Fault)
    returns (resp: VoteResponse)
    requires db.Valid()
    modifies db`votes, db`users
    ensures db.Valid()
    ensures CheckRequest(user, isPost, input).Err? ==>
              resp == Rejected(CheckRequest(user, isPost, input).error)
    ensures resp.Rejected? ==> db.votes == old(db.votes) && db.users == old(db.users)
    ensures CheckRequest(user, isPost, input).Ok? ==>
              var b := CheckRequest(user, isPost, input).value;
              var author := ItemAuthor(db.questions, db.answers, b.item);
              && (author.None? ==> resp == Rejected(ContentNotFound))
              && (author == Some(b.voter) ==> resp == Rejected(OwnContent))
              && (author.Some? && author.value != b.voter ==>
                    if fault == FailAt(SelectStep) || fault == FailAt(WriteStep)
                       || fault == FailAt(ReputationStep) || fault == FailAt(CommitStep)
                    then resp == Rejected(DatabaseError)
                    else
                      var t := Toggle(old(db.votes), VoteKey(b.voter, b.item), b.dir);
                      && db.votes == t.rows
                      && resp == Recorded(GetVoteCount(t.rows, b.item, fault == FailAt(CountStep)), t.userVote)
                      && db.users == if author.value in old(db.users)
                                     then old(db.users)[author.value := RawReputation(t.rows, db.questions, db.answers, author.value)]
                                     else old(db.users))
  {
    var check := CheckRequest(user, isPost, input);
    if check.Err? {
      return Rejected(check.error);
    }
    var b := check.value;
    var author := ItemAuthor(db.questions, db.answers, b.item);
    if author.None? {
      return Rejected(ContentNotFound);
    }
    if author.value == b.voter {
      return Rejected(OwnContent);
    }
    resp := VoteTransaction(db, VoteKey(b.voter, b.item), b.dir, author.value, fault);
  }

  /** The try block of vote.php: toggle the caller's vote, read the count back
      and overwrite the author's stored reputation, all in one transaction. */
  method VoteTransaction(db: Database, key: VoteKey, dir: Direction, author: UserId, fault: Fault)
    returns (resp: VoteResponse)
    requires db.Valid()
    modifies db`votes, db`users
    ensures db.Valid()
    ensures fault == FailAt(SelectStep) || fault == FailAt(WriteStep)
            || fault == FailAt(ReputationStep) || fault == FailAt(CommitStep) ==>
              resp == Rejected(DatabaseError) && db.votes == old(db.votes) && db.users == old(db.users)
    ensures !(fault == FailAt(SelectStep) || fault == FailAt(WriteStep)
              || fault == FailAt(ReputationStep) || fault == FailAt(CommitStep)) ==>
              var t := Toggle(old(db.votes), key, dir);
              && db.votes == t.rows
              && resp == Recorded(GetVoteCount(t.rows, key.item, fault == FailAt(CountStep)), t.userVote)
              && db.users == if author in old(db.users)
                             then old(db.users)[author := RawReputation(t.rows, db.questions, db.answers, author)]
                             else old(db.users)
  {
    // beginTransaction: remember the state a rollback returns to
    var savedVotes, savedUsers := db.votes, db.users;

    if fault == FailAt(SelectStep) {
      return Rejected(DatabaseError);
    }
    if fault == FailAt(WriteStep) {
      return Rejected(DatabaseError);
    }
    ToggleUnique(db.votes, key, dir);
    var userVote := ApplyToggle(db, key, dir);
    assert UniqueVoteKeys(db.votes);

    var voteCount := GetVoteCount(db.votes, key.item, fault == FailAt(CountStep));

    if fault == FailAt(ReputationStep) {
      db.votes, db.users := savedVotes, savedUsers;
      return Rejected(DatabaseError);
    }
    if author in db.users {
      db.users := db.users[author := RawReputation(db.votes, db.questions, db.answers, author)];
    }

    if fault == FailAt(CommitStep) {
      db.votes, db.users := savedVotes, savedUsers;
      return Rejected(DatabaseError);
    }
    resp := Recorded(voteCount, userVote);
  }

  /** Lines 74-91 of vote.php: delete the caller's vote if it has the same
      direction, update it if it has the other, insert one if there is none. */
  method ApplyToggle(db: Database, key: VoteKey, dir: Direction) returns (userVote: Option<Direction>)
    modifies db`votes
    ensures db.votes == Toggle(old(db.votes), key, dir).rows
    ensures userVote == Toggle(old(db.votes), key, dir).userVote
  {
    var existing := Lookup(db.votes, key);
    if existing.Some? {
      if existing.value == dir {
        db.votes := DeleteKey(db.votes, key);
        userVote := None;
      } else {
        db.votes := SetDirection(db.votes, key, dir);
        userVote := Some(dir);
      }
    } else {
      db.votes := db.votes + [VoteRow(key, dir)];
      userVote := Some(dir);
    }
  }

  /** The scenario of a question Q by user A voted on by user B: up gives 1,
      up again gives 0 and no vote, down then gives -1. */
  lemma VoteScenario(q: int, b: UserId)
    ensures var key := VoteKey(b, Votable(Question, q));
            var t1 := Toggle([], key, Up);
            var t2 := Toggle(t1.rows, key, Up);
            var t3 := Toggle(t2.rows, key, Down);
            && VoteCount(t1.rows, key.item) == 1 && t1.userVote == Some(Up)
            && VoteCount(t2.rows, key.item) == 0 && t2.userVote == None
            && VoteCount(t3.rows, key.item) == -1 && t3.userVote == Some(Down)
  {
    var key := VoteKey(b, Votable(Question, q));
    var up, down := VoteRow(key, Up), VoteRow(key, Down);
    assert [up][..0] == [] && [down][..0] == [];
    assert Toggle([], key, Up) == Toggled([up], Some(Up));
    assert VoteCount([up], key.item) == 1;
    assert Lookup([up], key) == Some(Up);
    assert DeleteKey([up], key) == [];
    assert Toggle([up], key, Up) == Toggled([], None);
    assert Toggle([], key, Down) == Toggled([down], Some(Down));
    assert VoteCount([down], key.item) == -1;
  }
}
