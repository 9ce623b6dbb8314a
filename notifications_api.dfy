/** api/notifications.php: a POST with action mark_read flips every unread
    notification of the caller to read; any other request lists the caller's
    newest 20 notifications with the unread count. */
module NotificationsApi {
  import opened Common
  import opened Store
  import opened Functions

  // ------------------------------------------------------------- mark_read

  /** UPDATE notifications SET is_read = 1 WHERE user_id = u AND is_read = 0 */
  function MarkAllRead(log: seq<NotificationRow>, u: UserId): (r: seq<NotificationRow>)
    ensures |r| == |log|
    ensures forall i :: 0 <= i < |r| ==> r[i] == log[i].(isRead := r[i].isRead)
    ensures forall i :: 0 <= i < |r| ==> log[i].isRead ==> r[i].isRead
    ensures forall i :: 0 <= i < |r| && log[i].recipient != u ==> r[i] == log[i]
  {
    seq(|log|, i requires 0 <= i < |log| => if log[i].recipient == u then log[i].(isRead := true) else log[i])
  }

  /** Afterwards the caller has nothing unread. */
  lemma MarkAllReadClears(log: seq<NotificationRow>, u: UserId)
    ensures UnreadCount(MarkAllRead(log, u), u) == 0
  {
    UnreadCountZero(MarkAllRead(log, u), u);
  }

  /** Another user's unread count is not changed. */
  lemma {:induction false} MarkAllReadOthers(log: seq<NotificationRow>, u: UserId, v: UserId)
    requires u != v
    ensures UnreadCount(MarkAllRead(log, u), v) == UnreadCount(log, v)
  {
    if log != [] {
      var n := |log| - 1;
      var r := MarkAllRead(log, u);
      MarkAllReadOthers(log[..n], u, v);
      assert r[..n] == MarkAllRead(log[..n], u);
      assert UnreadCount(r, v) == UnreadCount(r[..n], v) + (if r[n].recipient == v && !r[n].isRead then 1 else 0);
      assert r[n].recipient == v ==> r[n] == log[n];
    }
  }

  /** The UPDATE changes no row exactly when the caller has nothing unread;
      so a second mark_read in a row changes nothing. */
  lemma MarkAllReadNoChange(log: seq<NotificationRow>, u: UserId)
    ensures MarkAllRead(log, u) == log <==> UnreadCount(log, u) == 0
  {
    var r := MarkAllRead(log, u);
    UnreadCountZero(log, u);
    if UnreadCount(log, u) == 0 {
      assert forall i :: 0 <= i < |log| ==> r[i] == log[i];
    } else {
      var i :| 0 <= i < |log| && log[i].recipient == u && !log[i].isRead;
      assert r[i] != log[i];
    }
  }

  lemma MarkAllReadIdempotent(log: seq<NotificationRow>, u: UserId)
    ensures MarkAllRead(MarkAllRead(log, u), u) == MarkAllRead(log, u)
  {
    MarkAllReadClears(log, u);
    MarkAllReadNoChange(MarkAllRead(log, u), u);
  }

  // ------------------------------------------------------------------ list

  const ListLimit := 20

  function OfUser(log: seq<NotificationRow>, u: UserId): (r: seq<NotificationRow>)
    ensures forall x :: x in r <==> x in log && x.recipient == u
  {
    if log == [] then []
    else (if log[0].recipient == u then [log[0]] else []) + OfUser(log[1..], u)
  }

  ghost predicate NewestFirst(s: seq<NotificationRow>) {
    forall i, j :: 0 <= i < j < |s| ==> s[i].createdAt >= s[j].createdAt
  }

  function InsertByTime(n: NotificationRow, s: seq<NotificationRow>): (r: seq<NotificationRow>)
    requires NewestFirst(s)
    ensures NewestFirst(r)
    ensures multiset(r) == multiset(s) + multiset{n}
    ensures forall x :: x in r ==> x in s || x == n
  {
    if s == [] then [n]
    else if n.createdAt >= s[0].createdAt then [n] + s
    else
      var rest := InsertByTime(n, s[1..]);
      HeadIsNewest(s);
      ConsNewestFirst(s[0], rest);
      assert s == [s[0]] + s[1..];
      [s[0]] + rest
  }

  lemma HeadIsNewest(s: seq<NotificationRow>)
    requires s != [] && NewestFirst(s)
    ensures forall x :: x in s[1..] ==> x.createdAt <= s[0].createdAt
  {
    forall x | x in s[1..] ensures x.createdAt <= s[0].createdAt {
      var k :| 0 <= k < |s[1..]| && s[1..][k] == x;
      assert s[k + 1] == x;
    }
  }

  lemma ConsNewestFirst(h: NotificationRow, rest: seq<NotificationRow>)
    requires NewestFirst(rest)
    requires forall x :: x in rest ==> x.createdAt <= h.createdAt
    ensures NewestFirst([h] + rest)
  {
    var r := [h] + rest;
    forall i, j | 0 <= i < j < |r| ensures r[i].createdAt >= r[j].createdAt {
      assert r[j] == rest[j - 1];
      if i == 0 {
        assert rest[j - 1] in rest;
      } else {
        assert r[i] == rest[i - 1];
      }
    }
  }

  /** ORDER BY created_at DESC, as a stable insertion sort. */
  function SortNewestFirst(s: seq<NotificationRow>): (r: seq<NotificationRow>)
    ensures NewestFirst(r)
    ensures multiset(r) == multiset(s)
  {
    if s == [] then []
    else
      assert s == [s[0]] + s[1..];
      InsertByTime(s[0], SortNewestFirst(s[1..]))
  }

  function Take(s: seq<NotificationRow>, n: nat): (r: seq<NotificationRow>)
    ensures |r| == if |s| < n then |s| else n
    ensures r == s[..|r|]
  {
    if |s| < n then s else s[..n]
  }

  /** SELECT * ... WHERE user_id = u ORDER BY created_at DESC LIMIT 20 */
  function Recent(log: seq<NotificationRow>, u: UserId): (r: seq<NotificationRow>)
    ensures |r| <= ListLimit
    ensures NewestFirst(r)
  {
    Take(SortNewestFirst(OfUser(log, u)), ListLimit)
  }

  /** The list holds only the caller's notifications, all of them up to 20. */
  lemma RecentOfCaller(log: seq<NotificationRow>, u: UserId)
    ensures |Recent(log, u)| == if |OfUser(log, u)| < ListLimit then |OfUser(log, u)| else ListLimit
    ensures forall x :: x in Recent(log, u) ==> x in log && x.recipient == u
  {
    var mine := OfUser(log, u);
    var sorted := SortNewestFirst(mine);
    assert |sorted| == |multiset(sorted)| == |multiset(mine)| == |mine|;
    var r := Recent(log, u);
    forall x | x in r ensures x in log && x.recipient == u {
      assert x in sorted;
      assert x in multiset(sorted);
      assert x in multiset(mine);
    }
  }

  /** A notification of the caller that was left out is no newer than any listed one. */
  lemma RecentIsNewest(log: seq<NotificationRow>, u: UserId, x: NotificationRow, i: int)
    requires x in log && x.recipient == u && x !in Recent(log, u)
    requires 0 <= i < |Recent(log, u)|
    ensures x.createdAt <= Recent(log, u)[i].createdAt
  {
    var mine := OfUser(log, u);
    var sorted := SortNewestFirst(mine);
    var r := Recent(log, u);
    assert x in multiset(mine);
    assert x in multiset(sorted);
    var j :| 0 <= j < |sorted| && sorted[j] == x;
    assert j >= |r|;
    assert r[i] == sorted[i];
  }

  // --------------------------------------------------------------- handler

  datatype NotificationsError = AuthenticationRequired | InvalidAction | MarkReadFailed | LoadFailed

  datatype NotificationsResponse =
    | Listed(items: seq<NotificationRow>, unread: nat)
    | MarkedRead
    | NotificationsFailed(error: NotificationsError)

  /** notifications.php. `action` is the JSON body's action field, if set; for
      a GET, step 1 is the list query and step 2 the unread count; for
      mark_read, step 1 is the UPDATE. */
  method HandleNotifications(db: Database, user: Option<UserId>, isPost: bool, action: Option<Bytes>, fault: Fault)
    returns (resp: NotificationsResponse)
    requires db.Valid()
    modifies db`notifications
    ensures db.Valid()
    ensures user.None? ==> resp == NotificationsFailed(AuthenticationRequired)
    ensures !resp.MarkedRead? ==> db.notifications == old(db.notifications)
    ensures resp.MarkedRead? ==> db.notifications == MarkAllRead(old(db.notifications), user.value)
    ensures user.Some? && isPost ==>
              if action != Some(Lit("mark_read")) then resp == NotificationsFailed(InvalidAction)
              else if fault == FailAt(1) then resp == NotificationsFailed(MarkReadFailed)
              else resp == MarkedRead
    ensures user.Some? && !isPost ==>
              if fault == FailAt(1) then resp == NotificationsFailed(LoadFailed)
              else resp == Listed(Recent(db.notifications, user.value),
                                  GetUnreadNotificationCount(db.notifications, user.value, fault == FailAt(2)))
  {
    if user.None? {
      return NotificationsFailed(AuthenticationRequired);
    }
    if isPost {
      if action == Some(Lit("mark_read")) {
        if fault == FailAt(1) {
          return NotificationsFailed(MarkReadFailed);
        }
        db.notifications := MarkAllRead(db.notifications, user.value);
        return MarkedRead;
      }
      return NotificationsFailed(InvalidAction);
    }
    if fault == FailAt(1) {
      return NotificationsFailed(LoadFailed);
    }
    var items := Recent(db.notifications, user.value);
    var unread := GetUnreadNotificationCount(db.notifications, user.value, fault == FailAt(2));
    resp := Listed(items, unread);
  }
}
