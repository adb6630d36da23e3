/** The notification routes (src/routes/notifications.mjs): the caller's
    latest notifications, marking one or all of them read, and the unread
    count of the header badge. */
module NotificationRoutes {
  import opened Records
  import opened Db

  /** `limit: 50`. */
  const PageSize: nat := 50

  ghost predicate IdsAscend(ns: seq<Notification>) {
    forall i, j :: 0 <= i < j < |ns| ==> ns[i].id < ns[j].id
  }

  /** The caller's rows, in insertion order. */
  function Mine(ns: seq<Notification>, userId: Id): (r: seq<Notification>)
    ensures |r| <= |ns|
    ensures forall n :: n in r <==> n in ns && n.userId == userId
  {
    if ns == [] then []
    else (if ns[0].userId == userId then [ns[0]] else []) + Mine(ns[1..], userId)
  }

  /** The caller's rows keep the order of the keys. */
  lemma {:induction false} MineAscends(ns: seq<Notification>, userId: Id)
    requires IdsAscend(ns)
    ensures IdsAscend(Mine(ns, userId))
  {
    if ns != [] {
      var rest := Mine(ns[1..], userId);
      MineAscends(ns[1..], userId);
      if ns[0].userId == userId {
        forall n | n in rest ensures ns[0].id < n.id {
          var j :| 0 <= j < |ns[1..]| && ns[1..][j] == n;
          assert ns[j + 1] == n;
        }
        assert Mine(ns, userId) == [ns[0]] + rest;
      }
    }
  }

  function Reverse(s: seq<Notification>): (r: seq<Notification>)
    ensures |r| == |s|
    ensures forall i :: 0 <= i < |s| ==> r[i] == s[|s| - 1 - i]
  {
    if s == [] then [] else Reverse(s[1..]) + [s[0]]
  }

  /** The unread rows of a list (`filter(n => !n.read).length`). */
  function CountUnread(s: seq<Notification>): (c: nat)
    ensures c <= |s|
  {
    if s == [] then 0 else (if s[0].read then 0 else 1) + CountUnread(s[1..])
  }

  /** The caller's unread rows in the table (`count where userId and read = false`). */
  function UnreadOf(ns: seq<Notification>, userId: Id): nat {
    if ns == [] then 0
    else (if ns[0].userId == userId && !ns[0].read then 1 else 0) + UnreadOf(ns[1..], userId)
  }

  // ---------------------------------------------------------------------
  // GET /notifications

  /** `order: createdAt DESC, limit: 50`: rows are created in key order, so
      newest first is the caller's rows backwards. */
  function LatestOf(ns: seq<Notification>, userId: Id): seq<Notification> {
    var r := Reverse(Mine(ns, userId));
    if |r| <= PageSize then r else r[..PageSize]
  }

  /** The page position by position: slot `i` holds the caller's `i`-th row
      counted from the newest. */
  lemma LatestShape(ns: seq<Notification>, userId: Id)
    ensures var mine, p := Mine(ns, userId), LatestOf(ns, userId);
            && |p| == (if |mine| <= PageSize then |mine| else PageSize)
            && forall i :: 0 <= i < |p| ==> p[i] == mine[|mine| - 1 - i]
  {
  }

  lemma LatestRowsAreMine(ns: seq<Notification>, userId: Id)
    ensures forall n :: n in LatestOf(ns, userId) ==> n in ns && n.userId == userId
  {
    var mine, p := Mine(ns, userId), LatestOf(ns, userId);
    LatestShape(ns, userId);
    forall n | n in p ensures n in mine {
      var b :| 0 <= b < |p| && p[b] == n;
      assert mine[|mine| - 1 - b] == n;
    }
  }

  /** Read backwards from the end, a sequence in ascending key order descends. */
  lemma BackwardsDescends(s: seq<Notification>, p: seq<Notification>)
    requires IdsAscend(s) && |p| <= |s|
    requires forall i :: 0 <= i < |p| ==> p[i] == s[|s| - 1 - i]
    ensures forall i, j :: 0 <= i < j < |p| ==> p[i].id > p[j].id
  {
    forall i, j | 0 <= i < j < |p| ensures p[i].id > p[j].id {
      assert s[|s| - 1 - j].id < s[|s| - 1 - i].id;
    }
  }

  /** Read backwards from the end, the first rows are newer than every row
      before them. */
  lemma BackwardsNewer(s: seq<Notification>, p: seq<Notification>, a: int)
    requires IdsAscend(s) && |p| <= |s|
    requires forall i :: 0 <= i < |p| ==> p[i] == s[|s| - 1 - i]
    requires 0 <= a < |s| - |p|
    ensures forall m :: m in p ==> s[a].id < m.id
  {
    forall m | m in p ensures s[a].id < m.id {
      var b :| 0 <= b < |p| && p[b] == m;
      assert s[a].id < s[|s| - 1 - b].id;
    }
  }

  lemma LatestDescends(ns: seq<Notification>, userId: Id)
    requires IdsAscend(ns)
    ensures var p := LatestOf(ns, userId);
            forall i, j :: 0 <= i < j < |p| ==> p[i].id > p[j].id
  {
    MineAscends(ns, userId);
    LatestShape(ns, userId);
    BackwardsDescends(Mine(ns, userId), LatestOf(ns, userId));
  }

  /** The caller's rows within fifty of the newest are on the page. */
  lemma LatestKeepsNewest(ns: seq<Notification>, userId: Id, a: int)
    requires 0 <= a < |Mine(ns, userId)|
    ensures |Mine(ns, userId)| - 1 - a < PageSize ==> Mine(ns, userId)[a] in LatestOf(ns, userId)
  {
    var mine, p := Mine(ns, userId), LatestOf(ns, userId);
    LatestShape(ns, userId);
    if |mine| - 1 - a < PageSize {
      assert p[|mine| - 1 - a] == mine[a];
    }
  }

  /** A row of the caller's that the page leaves off: the page is full and
      every row on it is newer. */
  lemma LatestOmitsOlder(ns: seq<Notification>, userId: Id, n: Notification)
    requires IdsAscend(ns)
    requires n in ns && n.userId == userId && n !in LatestOf(ns, userId)
    ensures |LatestOf(ns, userId)| == PageSize
    ensures forall m :: m in LatestOf(ns, userId) ==> n.id < m.id
  {
    var mine, p := Mine(ns, userId), LatestOf(ns, userId);
    MineAscends(ns, userId);
    assert n in mine;
    var a :| 0 <= a < |mine| && mine[a] == n;
    LatestKeepsNewest(ns, userId, a);
    LatestShape(ns, userId);
    BackwardsNewer(mine, p, a);
  }

  /** The page: at most fifty of the caller's rows, newest first, and every
      row of theirs left off is older than every row shown. */
  lemma LatestIsNewestFifty(ns: seq<Notification>, userId: Id, next: int)
    requires NotificationKeys(ns, next)
    ensures var p := LatestOf(ns, userId);
            && |p| <= PageSize
            && (forall n :: n in p ==> n in ns && n.userId == userId)
            && (forall i, j :: 0 <= i < j < |p| ==> p[i].id > p[j].id)
            && (forall n :: n in ns && n.userId == userId && n !in p ==>
                  |p| == PageSize && forall m :: m in p ==> n.id < m.id)
  {
    var p := LatestOf(ns, userId);
    assert IdsAscend(ns);
    LatestShape(ns, userId);
    LatestRowsAreMine(ns, userId);
    LatestDescends(ns, userId);
    forall n | n in ns && n.userId == userId && n !in p
      ensures |p| == PageSize && forall m :: m in p ==> n.id < m.id
    {
      LatestOmitsOlder(ns, userId, n);
    }
  }

  datatype NotificationsPage = NotificationsPage(notifications: seq<Notification>, unreadCount: nat)

  function ListNotifications(ns: seq<Notification>, session: Option<User>): (r: (Outcome, Option<NotificationsPage>))
    ensures session.None? ==> r.0 == ToLogin && r.1.None?
    ensures session.Some? ==> r.0 == Rendered && r.1.Some?
    ensures r.1.Some? ==> r.1.value.notifications == LatestOf(ns, session.value.id)
    ensures r.1.Some? ==> r.1.value.unreadCount == CountUnread(r.1.value.notifications)
    ensures r.1.Some? ==> r.1.value.unreadCount <= |r.1.value.notifications|
    ensures r.1.Some? ==> r.1.value.unreadCount <= UnreadOf(ns, session.value.id)
  {
    if session.None? then (ToLogin, None)
    else
      var page := LatestOf(ns, session.value.id);
      PageCountWithinBadge(ns, session.value.id);
      (Rendered, Some(NotificationsPage(page, CountUnread(page))))
  }

  lemma CountUnreadAppend(a: seq<Notification>, b: seq<Notification>)
    ensures CountUnread(a + b) == CountUnread(a) + CountUnread(b)
  {
    if a == [] {
      assert a + b == b;
    } else {
      assert (a + b)[1..] == a[1..] + b;
      CountUnreadAppend(a[1..], b);
    }
  }

  lemma {:induction false} CountUnreadReverse(s: seq<Notification>)
    ensures CountUnread(Reverse(s)) == CountUnread(s)
  {
    if s != [] {
      CountUnreadReverse(s[1..]);
      CountUnreadAppend(Reverse(s[1..]), [s[0]]);
    }
  }

  lemma {:induction false} CountUnreadMine(ns: seq<Notification>, userId: Id)
    ensures CountUnread(Mine(ns, userId)) == UnreadOf(ns, userId)
  {
    if ns != [] {
      CountUnreadMine(ns[1..], userId);
      if ns[0].userId == userId {
        assert Mine(ns, userId) == [ns[0]] + Mine(ns[1..], userId);
        assert Mine(ns, userId)[1..] == Mine(ns[1..], userId);
      } else {
        assert Mine(ns, userId) == Mine(ns[1..], userId);
      }
    }
  }

  /** The page's count never exceeds the badge's, and equals it while the
      caller has no more than fifty rows. */
  lemma PageCountWithinBadge(ns: seq<Notification>, userId: Id)
    ensures CountUnread(LatestOf(ns, userId)) <= UnreadOf(ns, userId)
    ensures |Mine(ns, userId)| <= PageSize ==> CountUnread(LatestOf(ns, userId)) == UnreadOf(ns, userId)
  {
    var r := Reverse(Mine(ns, userId));
    CountUnreadMine(ns, userId);
    CountUnreadReverse(Mine(ns, userId));
    if |r| > PageSize {
      assert r == r[..PageSize] + r[PageSize..];
      CountUnreadAppend(r[..PageSize], r[PageSize..]);
    }
  }

  // ---------------------------------------------------------------------
  // POST /notifications/:id/read

  /** `notification.update({ read: true })` on the row with that key, when
      the caller owns it. */
  function MarkOne(ns: seq<Notification>, id: int, userId: Id): (r: seq<Notification>)
    ensures |r| == |ns|
    ensures forall k :: 0 <= k < |ns| ==>
              r[k] == (if ns[k].id == id && ns[k].userId == userId then ns[k].(read := true) else ns[k])
  {
    if ns == [] then []
    else [if ns[0].id == id && ns[0].userId == userId then ns[0].(read := true) else ns[0]]
         + MarkOne(ns[1..], id, userId)
  }

  method MarkRead(db: Database, session: Option<User>, id: int) returns (o: Outcome)
    requires db.Valid()
    modifies db
    ensures db.Valid()
    ensures db.users == old(db.users) && db.homework == old(db.homework)
    ensures db.completions == old(db.completions) && db.comments == old(db.comments)
    ensures session.None? ==> o == Forbidden && db.notifications == old(db.notifications)
    ensures session.Some? && FindOwnedNotification(old(db.notifications), id, session.value.id).None? ==>
              o == NotFound && db.notifications == old(db.notifications)
    ensures session.Some? && FindOwnedNotification(old(db.notifications), id, session.value.id).Some? ==>
              o == Rendered && db.notifications == MarkOne(old(db.notifications), id, session.value.id)
  {
    if session.None? {
      return Forbidden;
    }
    var found := FindOwnedNotification(db.notifications, id, session.value.id);
    if found.None? {
      return NotFound;
    }
    var i := found.value;
    ghost var ns := db.notifications;
    db.notifications := db.notifications[i := db.notifications[i].(read := true)];
    assert forall k :: 0 <= k < |ns| && k != i ==> ns[k].id != id;
    o := Rendered;
  }

  /** Marking a notification read twice is marking it once. */
  lemma MarkOneIdempotent(ns: seq<Notification>, id: int, userId: Id)
    ensures MarkOne(MarkOne(ns, id, userId), id, userId) == MarkOne(ns, id, userId)
  {
  }

  /** Marking one notification read leaves every other user's badge alone. */
  lemma {:induction false} MarkOneOthers(ns: seq<Notification>, id: int, userId: Id, v: Id)
    requires v != userId
    ensures UnreadOf(MarkOne(ns, id, userId), v) == UnreadOf(ns, v)
  {
    if ns != [] {
      assert MarkOne(ns, id, userId)[1..] == MarkOne(ns[1..], id, userId);
      MarkOneOthers(ns[1..], id, userId, v);
    }
  }

  /** Setting the read flag of one row lowers its owner's unread count by one
      when it was unread. */
  lemma {:induction false} UnreadOfMarked(ns: seq<Notification>, k: int, userId: Id)
    requires 0 <= k < |ns|
    ensures UnreadOf(ns[k := ns[k].(read := true)], userId)
              == UnreadOf(ns, userId) - (if ns[k].userId == userId && !ns[k].read then 1 else 0)
  {
    var r := ns[k := ns[k].(read := true)];
    if k == 0 {
      assert r[1..] == ns[1..];
    } else {
      assert r[1..] == ns[1..][k - 1 := ns[k].(read := true)];
      UnreadOfMarked(ns[1..], k - 1, userId);
    }
  }

  /** Marking one's own notification read lowers one's badge by one when it
      was unread; a key one does not own changes nothing. */
  lemma MarkOneOwn(ns: seq<Notification>, id: int, userId: Id)
    requires IdsAscend(ns)
    ensures FindOwnedNotification(ns, id, userId).Some? ==>
              UnreadOf(MarkOne(ns, id, userId), userId)
                == UnreadOf(ns, userId) - (if ns[FindOwnedNotification(ns, id, userId).value].read then 0 else 1)
    ensures FindOwnedNotification(ns, id, userId).None? ==>
              UnreadOf(MarkOne(ns, id, userId), userId) == UnreadOf(ns, userId)
  {
    var f := FindOwnedNotification(ns, id, userId);
    if f.None? {
      MarkOneAbsent(ns, id, userId);
    } else {
      var k := f.value;
      var r := MarkOne(ns, id, userId);
      forall j | 0 <= j < |ns| && j != k ensures ns[j].id != id {
        if j < k {
          assert ns[j].id < ns[k].id;
        } else {
          assert ns[k].id < ns[j].id;
        }
      }
      assert r == ns[k := ns[k].(read := true)];
      UnreadOfMarked(ns, k, userId);
    }
  }

  /** Where no row has the pair, marking changes nothing. */
  lemma MarkOneAbsent(ns: seq<Notification>, id: int, userId: Id)
    requires FindOwnedNotification(ns, id, userId).None?
    ensures MarkOne(ns, id, userId) == ns
  {
  }

  // ---------------------------------------------------------------------
  // POST /notifications/read-all

  /** `update({ read: true }, { where: { userId, read: false } })`. */
  function MarkAll(ns: seq<Notification>, userId: Id): (r: seq<Notification>)
    ensures |r| == |ns|
    ensures forall k :: 0 <= k < |ns| ==>
              r[k] == (if ns[k].userId == userId && !ns[k].read then ns[k].(read := true) else ns[k])
  {
    if ns == [] then []
    else [if ns[0].userId == userId && !ns[0].read then ns[0].(read := true) else ns[0]]
         + MarkAll(ns[1..], userId)
  }

  method MarkAllRead(db: Database, session: Option<User>) returns (o: Outcome)
    requires db.Valid()
    modifies db
    ensures db.Valid()
    ensures db.users == old(db.users) && db.homework == old(db.homework)
    ensures db.completions == old(db.completions) && db.comments == old(db.comments)
    ensures session.None? ==> o == Forbidden && db.notifications == old(db.notifications)
    ensures session.Some? ==> o == Rendered && db.notifications == MarkAll(old(db.notifications), session.value.id)
  {
    if session.None? {
      return Forbidden;
    }
    db.notifications := MarkAll(db.notifications, session.value.id);
    o := Rendered;
  }

  /** After "mark all read" the caller's badge is zero, every other user's
      badge is what it was, and a second run changes nothing. */
  lemma {:induction false} MarkAllClears(ns: seq<Notification>, userId: Id)
    ensures UnreadOf(MarkAll(ns, userId), userId) == 0
    ensures forall v :: v != userId ==> UnreadOf(MarkAll(ns, userId), v) == UnreadOf(ns, v)
    ensures MarkAll(MarkAll(ns, userId), userId) == MarkAll(ns, userId)
  {
    if ns != [] {
      var r := MarkAll(ns, userId);
      assert r[1..] == MarkAll(ns[1..], userId);
      MarkAllClears(ns[1..], userId);
    }
  }

  // ---------------------------------------------------------------------
  // GET /notifications/unread-count

  /** The badge: 0 without a session. */
  function UnreadCount(ns: seq<Notification>, session: Option<User>): (c: nat)
    ensures session.None? ==> c == 0
    ensures session.Some? ==> c == UnreadOf(ns, session.value.id)
    ensures session.Some? ==> c == CountUnread(Mine(ns, session.value.id)) <= |Mine(ns, session.value.id)|
    ensures c <= |ns|
  {
    if session.None? then 0
    else
      UnreadBound(ns, session.value.id);
      CountUnreadMine(ns, session.value.id);
      UnreadOf(ns, session.value.id)
  }

  lemma {:induction false} UnreadBound(ns: seq<Notification>, userId: Id)
    ensures UnreadOf(ns, userId) <= |Mine(ns, userId)| <= |ns|
  {
    if ns != [] {
      UnreadBound(ns[1..], userId);
    }
  }
}
