/** The reminder sweep (src/scripts/create_reminders.mjs): for every homework
    item due within the next 24 hours, every user of its class who has no
    reminder about it yet gets one. */
module Reminders {
  import opened Records
  import opened Db

  /** `due_date > now AND due_date <= now + 24h`. */
  predicate DueSoon(h: Homework, now: Time) {
    h.due.Some? && now < h.due.value <= now + DayMs
  }

  /** The first query, in table order. */
  function DueSoonRows(hs: seq<Homework>, now: Time): (r: seq<Homework>)
    ensures forall h :: h in r <==> h in hs && DueSoon(h, now)
  {
    if hs == [] then []
    else (if DueSoon(hs[0], now) then [hs[0]] else []) + DueSoonRows(hs[1..], now)
  }

  /** `Users.findAll({ where: { classe } })`: the creator included. */
  function ClassMembers(us: seq<User>, cls: string): (r: seq<User>)
    ensures forall u :: u in r <==> u in us && u.classe == cls
  {
    if us == [] then []
    else (if us[0].classe == cls then [us[0]] else []) + ClassMembers(us[1..], cls)
  }

  /** The findOne on (userId, homeworkId, type 'reminder'). */
  predicate HasReminder(ns: seq<Notification>, userId: Id, homeworkId: Id) {
    exists n :: n in ns && n.userId == userId && n.homeworkId == Some(homeworkId) && n.kind == Reminder
  }

  /** "aujourd'hui" when the due instant falls on the same calendar day as
      now, "demain" otherwise (server time taken as UTC). */
  function DayText(due: Time, now: Time): string {
    if due / DayMs == now / DayMs then "aujourd'hui" else "demain"
  }

  /** The text of a reminder; `timeText` is the `HHhMM` rendering of the due time. */
  function ReminderMessage(h: Homework, now: Time, timeText: Time -> string): string
    requires h.due.Some?
  {
    "Rappel : Le devoir \"" + h.title + "\" (" + h.subject + ") est à rendre "
      + DayText(h.due.value, now) + " à " + timeText(h.due.value) + " !"
  }

  /** A window of 24 hours after now reaches no further than tomorrow: a
      reminder that says "demain" is about the next calendar day. */
  lemma DueSoonIsTodayOrTomorrow(h: Homework, now: Time)
    requires DueSoon(h, now)
    ensures h.due.value / DayMs == now / DayMs || h.due.value / DayMs == now / DayMs + 1
    ensures DayText(h.due.value, now) == "demain" ==> h.due.value / DayMs == now / DayMs + 1
  {
    var q := now / DayMs;
    assert q * DayMs <= now < q * DayMs + DayMs;
    assert q * DayMs < h.due.value <= q * DayMs + 2 * DayMs;
  }

  /** A (homework, user) pair the sweep is about. */
  ghost predicate Eligible(hs: seq<Homework>, us: seq<User>, now: Time, h: Homework, u: User) {
    h in hs && DueSoon(h, now) && u in us && u.classe == h.cls
  }

  /** Every eligible pair has a reminder. */
  ghost predicate AllReminded(ns: seq<Notification>, hs: seq<Homework>, us: seq<User>, now: Time) {
    forall h, u :: Eligible(hs, us, now, h, u) ==> HasReminder(ns, u.id, h.id)
  }

  /** The row the sweep inserts for one pair. */
  ghost predicate IsReminderFor(n: Notification, h: Homework, u: User, now: Time, timeText: Time -> string) {
    && h.due.Some?
    && n.userId == u.id && n.homeworkId == Some(h.id) && n.kind == Reminder && !n.read
    && n.message == ReminderMessage(h, now, timeText)
  }

  /** A row created by the sweep: the reminder of an eligible pair, found
      by the primary keys the row holds. */
  ghost predicate Made(n: Notification, hs: seq<Homework>, us: seq<User>, now: Time, timeText: Time -> string) {
    && n.homeworkId.Some?
    && HomeworkById(hs, n.homeworkId.value).Some?
    && UserById(us, n.userId).Some?
    && Eligible(hs, us, now, HomeworkById(hs, n.homeworkId.value).value, UserById(us, n.userId).value)
    && IsReminderFor(n, HomeworkById(hs, n.homeworkId.value).value, UserById(us, n.userId).value, now, timeText)
  }

  /** What the sweep does to the table `ns0`: its rows are kept as they are,
      and each row after them is the reminder of an eligible pair that had
      none in `ns0` and gets no second one among the added rows. */
  ghost predicate Extends(ns: seq<Notification>, ns0: seq<Notification>, hs: seq<Homework>, us: seq<User>,
                          now: Time, timeText: Time -> string) {
    && |ns0| <= |ns| && ns[..|ns0|] == ns0
    && (forall k :: |ns0| <= k < |ns| ==> Made(ns[k], hs, us, now, timeText))
    && (forall k :: |ns0| <= k < |ns| ==>
          ns[k].homeworkId.Some? && !HasReminder(ns0, ns[k].userId, ns[k].homeworkId.value))
    && (forall k, l :: |ns0| <= k < l < |ns| ==>
          ns[k].userId != ns[l].userId || ns[k].homeworkId != ns[l].homeworkId)
  }

  lemma ExtendsByOne(ns: seq<Notification>, ns0: seq<Notification>, n: Notification, hs: seq<Homework>,
                     us: seq<User>, now: Time, timeText: Time -> string)
    requires Extends(ns, ns0, hs, us, now, timeText)
    requires Made(n, hs, us, now, timeText) && n.homeworkId.Some? && !HasReminder(ns, n.userId, n.homeworkId.value)
    ensures Extends(ns + [n], ns0, hs, us, now, timeText)
  {
    var ns' := ns + [n];
    assert ns'[..|ns0|] == ns0;
    forall k | |ns0| <= k < |ns'| ensures ns'[k].homeworkId.Some? && !HasReminder(ns0, ns'[k].userId, ns'[k].homeworkId.value) {
      if k == |ns| {
        assert forall w :: w in ns0 ==> w in ns;
      }
    }
    forall k, l | |ns0| <= k < l < |ns'| ensures ns'[k].userId != ns'[l].userId || ns'[k].homeworkId != ns'[l].homeworkId {
      if l == |ns| {
        assert ns[k] in ns;
      }
    }
  }

  /** `Notifications.create` of one reminder. */
  method AddReminder(db: Database, h: Homework, u: User, now: Time, timeText: Time -> string)
    requires db.Valid() && h.due.Some?
    modifies db
    ensures db.Valid()
    ensures db.users == old(db.users) && db.homework == old(db.homework)
    ensures db.completions == old(db.completions) && db.comments == old(db.comments)
    ensures |db.notifications| == |old(db.notifications)| + 1
    ensures db.notifications[..|old(db.notifications)|] == old(db.notifications)
    ensures IsReminderFor(db.notifications[|old(db.notifications)|], h, u, now, timeText)
  {
    var n := Notification(db.nextNotificationId, u.id, Some(h.id), Reminder, ReminderMessage(h, now, timeText), false);
    db.notifications := db.notifications + [n];
    db.nextNotificationId := db.nextNotificationId + 1;
    assert db.notifications[..|old(db.notifications)|] == old(db.notifications);
  }

  /** `b` is `a` with rows appended. */
  ghost predicate Grows(a: seq<Notification>, b: seq<Notification>) {
    |a| <= |b| && b[..|a|] == a
  }

  lemma GrowsTrans(a: seq<Notification>, b: seq<Notification>, c: seq<Notification>)
    requires Grows(a, b) && Grows(b, c)
    ensures Grows(a, c)
  {
    assert c[..|a|] == c[..|b|][..|a|];
  }

  /** A reminder once in the table stays found when rows are appended. */
  lemma RemindedStays(ns: seq<Notification>, ns': seq<Notification>, userId: Id, homeworkId: Id)
    requires Grows(ns, ns')
    requires HasReminder(ns, userId, homeworkId)
    ensures HasReminder(ns', userId, homeworkId)
  {
    var w :| w in ns && w.userId == userId && w.homeworkId == Some(homeworkId) && w.kind == Reminder;
    var k :| 0 <= k < |ns| && ns[k] == w;
    assert ns'[k] == w;
  }

  lemma PrefixStaysReminded(ns: seq<Notification>, ns': seq<Notification>, vs: seq<User>, j: int, homeworkId: Id)
    requires Grows(ns, ns') && 0 <= j < |vs|
    requires forall m :: 0 <= m < j ==> HasReminder(ns, vs[m].id, homeworkId)
    requires HasReminder(ns', vs[j].id, homeworkId)
    ensures forall m :: 0 <= m < j + 1 ==> HasReminder(ns', vs[m].id, homeworkId)
  {
    forall m | 0 <= m < j ensures HasReminder(ns', vs[m].id, homeworkId) {
      RemindedStays(ns, ns', vs[m].id, homeworkId);
    }
  }

  /** The body of the inner loop: look for the pair's reminder, create it if missing. */
  method RemindOne(db: Database, h: Homework, u: User, now: Time, timeText: Time -> string, ghost ns0: seq<Notification>)
    requires db.Valid() && Eligible(db.homework, db.users, now, h, u)
    requires Extends(db.notifications, ns0, db.homework, db.users, now, timeText)
    modifies db
    ensures db.Valid()
    ensures db.users == old(db.users) && db.homework == old(db.homework)
    ensures db.completions == old(db.completions) && db.comments == old(db.comments)
    ensures Extends(db.notifications, ns0, db.homework, db.users, now, timeText)
    ensures Grows(old(db.notifications), db.notifications)
    ensures HasReminder(db.notifications, u.id, h.id)
    ensures HasReminder(old(db.notifications), u.id, h.id) ==> db.notifications == old(db.notifications)
  {
    if !HasReminder(db.notifications, u.id, h.id) {
      ghost var before := db.notifications;
      AddReminder(db, h, u, now, timeText);
      ghost var n := db.notifications[|before|];
      assert db.notifications == before + [n];
      HomeworkByOwnId(db.homework, h, db.nextHomeworkId);
      UserByOwnId(db.users, u);
      assert Made(n, db.homework, db.users, now, timeText);
      ExtendsByOne(before, ns0, n, db.homework, db.users, now, timeText);
      assert n in db.notifications;
    }
  }

  /** The inner loop, over the users the class query returned. */
  method RemindUsers(db: Database, h: Homework, members: seq<User>, now: Time, timeText: Time -> string,
                     ghost ns0: seq<Notification>)
    requires db.Valid() && h in db.homework && DueSoon(h, now)
    requires forall m :: 0 <= m < |members| ==> members[m] in db.users && members[m].classe == h.cls
    requires Extends(db.notifications, ns0, db.homework, db.users, now, timeText)
    modifies db
    ensures db.Valid()
    ensures db.users == old(db.users) && db.homework == old(db.homework)
    ensures db.completions == old(db.completions) && db.comments == old(db.comments)
    ensures Extends(db.notifications, ns0, db.homework, db.users, now, timeText)
    ensures Grows(old(db.notifications), db.notifications)
    ensures forall m :: 0 <= m < |members| ==> HasReminder(db.notifications, members[m].id, h.id)
    ensures (forall m :: 0 <= m < |members| ==> HasReminder(old(db.notifications), members[m].id, h.id))
            ==> db.notifications == old(db.notifications)
  {
    ghost var start := db.notifications;
    ghost var allThere := forall m :: 0 <= m < |members| ==> HasReminder(start, members[m].id, h.id);
    assert start[..|start|] == start;
    for j := 0 to |members|
      invariant db.Valid()
      invariant db.users == old(db.users) && db.homework == old(db.homework)
      invariant db.completions == old(db.completions) && db.comments == old(db.comments)
      invariant Extends(db.notifications, ns0, db.homework, db.users, now, timeText)
      invariant Grows(start, db.notifications)
      invariant forall m :: 0 <= m < j ==> HasReminder(db.notifications, members[m].id, h.id)
      invariant allThere ==> db.notifications == start
    {
      ghost var before := db.notifications;
      RemindOne(db, h, members[j], now, timeText, ns0);
      GrowsTrans(start, before, db.notifications);
      PrefixStaysReminded(before, db.notifications, members, j, h.id);
    }
  }

  /** One due-soon item: its class's users, each reminded once. */
  method RemindClass(db: Database, h: Homework, now: Time, timeText: Time -> string, ghost ns0: seq<Notification>)
    requires db.Valid() && h in db.homework && DueSoon(h, now)
    requires Extends(db.notifications, ns0, db.homework, db.users, now, timeText)
    modifies db
    ensures db.Valid()
    ensures db.users == old(db.users) && db.homework == old(db.homework)
    ensures db.completions == old(db.completions) && db.comments == old(db.comments)
    ensures Extends(db.notifications, ns0, db.homework, db.users, now, timeText)
    ensures Grows(old(db.notifications), db.notifications)
    ensures forall u :: u in db.users && u.classe == h.cls ==> HasReminder(db.notifications, u.id, h.id)
    ensures (forall u :: u in db.users && u.classe == h.cls ==> HasReminder(old(db.notifications), u.id, h.id))
            ==> db.notifications == old(db.notifications)
  {
    var members := ClassMembers(db.users, h.cls);
    assert forall m :: 0 <= m < |members| ==> members[m] in members;
    RemindUsers(db, h, members, now, timeText, ns0);
    forall u | u in db.users && u.classe == h.cls ensures HasReminder(db.notifications, u.id, h.id) {
      assert u in members;
      var m :| 0 <= m < |members| && members[m] == u;
    }
  }

  /** The items `soon[..i]` are done: every user of their class has a reminder. */
  ghost predicate RemindedUpTo(ns: seq<Notification>, soon: seq<Homework>, us: seq<User>, i: int)
    requires 0 <= i <= |soon|
  {
    forall k, u :: 0 <= k < i && u in us && u.classe == soon[k].cls ==> HasReminder(ns, u.id, soon[k].id)
  }

  /** One more item done, and the rows appended meanwhile lose no reminder. */
  lemma RemindedUpToNext(before: seq<Notification>, after: seq<Notification>, soon: seq<Homework>, us: seq<User>, i: int)
    requires 0 <= i < |soon| && Grows(before, after) && RemindedUpTo(before, soon, us, i)
    requires forall u :: u in us && u.classe == soon[i].cls ==> HasReminder(after, u.id, soon[i].id)
    ensures RemindedUpTo(after, soon, us, i + 1)
  {
    forall k, u | 0 <= k < i + 1 && u in us && u.classe == soon[k].cls
      ensures HasReminder(after, u.id, soon[k].id)
    {
      if k < i {
        RemindedStays(before, after, u.id, soon[k].id);
      }
    }
  }

  /** Once every due-soon item is done, every eligible pair has a reminder. */
  lemma RemindedAll(ns: seq<Notification>, hs: seq<Homework>, us: seq<User>, now: Time, soon: seq<Homework>)
    requires soon == DueSoonRows(hs, now) && RemindedUpTo(ns, soon, us, |soon|)
    ensures AllReminded(ns, hs, us, now)
  {
    forall h, u | Eligible(hs, us, now, h, u) ensures HasReminder(ns, u.id, h.id) {
      assert h in soon;
      var k :| 0 <= k < |soon| && soon[k] == h;
    }
  }

  /** A table where every eligible pair is reminded covers each due-soon item's class. */
  lemma AllRemindedCoversClass(ns: seq<Notification>, hs: seq<Homework>, us: seq<User>, now: Time, h: Homework)
    requires AllReminded(ns, hs, us, now) && h in hs && DueSoon(h, now)
    ensures forall u :: u in us && u.classe == h.cls ==> HasReminder(ns, u.id, h.id)
  {
    forall u | u in us && u.classe == h.cls ensures HasReminder(ns, u.id, h.id) {
      assert Eligible(hs, us, now, h, u);
    }
  }

  /** createReminders. `now` is the instant of the sweep and `timeText` the
      time formatter. Rows already in the table are kept as they are; every
      eligible pair ends up with a reminder; each row added is the reminder
      of an eligible pair that had none; and a sweep that finds every pair
      reminded adds nothing. */
  method CreateReminders(db: Database, now: Time, timeText: Time -> string)
    requires db.Valid()
    modifies db
    ensures db.Valid()
    ensures db.users == old(db.users) && db.homework == old(db.homework)
    ensures db.completions == old(db.completions) && db.comments == old(db.comments)
    ensures Extends(db.notifications, old(db.notifications), db.homework, db.users, now, timeText)
    ensures AllReminded(db.notifications, db.homework, db.users, now)
    ensures AllReminded(old(db.notifications), db.homework, db.users, now) ==> db.notifications == old(db.notifications)
  {
    var soon := DueSoonRows(db.homework, now);
    ghost var ns0 := db.notifications;
    ghost var allThere := AllReminded(ns0, db.homework, db.users, now);
    assert ns0[..|ns0|] == ns0;
    for i := 0 to |soon|
      invariant db.Valid()
      invariant db.users == old(db.users) && db.homework == old(db.homework)
      invariant db.completions == old(db.completions) && db.comments == old(db.comments)
      invariant Extends(db.notifications, ns0, db.homework, db.users, now, timeText)
      invariant RemindedUpTo(db.notifications, soon, db.users, i)
      invariant allThere ==> db.notifications == ns0
    {
      var h := soon[i];
      assert h in soon;
      ghost var before := db.notifications;
      if allThere {
        AllRemindedCoversClass(ns0, db.homework, db.users, now, h);
      }
      RemindClass(db, h, now, timeText, ns0);
      RemindedUpToNext(before, db.notifications, soon, db.users, i);
    }
    RemindedAll(db.notifications, db.homework, db.users, now, soon);
  }

  /** Two sweeps at the same instant: the second one adds nothing. */
  method SweepTwice(db: Database, now: Time, timeText: Time -> string) returns (afterFirst: seq<Notification>)
    requires db.Valid()
    modifies db
    ensures db.Valid()
    ensures Extends(afterFirst, old(db.notifications), db.homework, db.users, now, timeText)
    ensures db.notifications == afterFirst
  {
    CreateReminders(db, now, timeText);
    afterFirst := db.notifications;
    CreateReminders(db, now, timeText);
  }
}
