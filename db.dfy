/** The relational store, as five in-memory tables (databases/db.mjs and the
    model definitions under src/models/). Every table is a sequence of rows
    in insertion order; primary keys are auto-increment counters. */
module Db {
  import opened Records

  /** Primary keys strictly ascend in insertion order and stay below the counter. */
  ghost predicate HomeworkKeys(hs: seq<Homework>, next: int) {
    && (forall i, j :: 0 <= i < j < |hs| ==> hs[i].id < hs[j].id)
    && (forall i :: 0 <= i < |hs| ==> hs[i].id < next)
  }

  /** The NOT NULL columns of the homework model (title, subject, class are
      strings by type; due_date is the one that can be missing). */
  ghost predicate HomeworkRows(hs: seq<Homework>) {
    forall i :: 0 <= i < |hs| ==> hs[i].due.Some?
  }

  ghost predicate UserKeys(us: seq<User>) {
    forall i, j :: 0 <= i < j < |us| ==> us[i].id < us[j].id
  }

  ghost predicate CompletionKeys(cs: seq<Completion>, next: int) {
    && (forall i, j :: 0 <= i < j < |cs| ==> cs[i].id < cs[j].id)
    && (forall i :: 0 <= i < |cs| ==> cs[i].id < next)
  }

  /** The unique index on (homeworkId, userId). */
  ghost predicate OnePerPair(cs: seq<Completion>) {
    forall i, j :: 0 <= i < j < |cs| ==>
      cs[i].homeworkId != cs[j].homeworkId || cs[i].userId != cs[j].userId
  }

  ghost predicate CommentKeys(cs: seq<Comment>, next: int) {
    && (forall i, j :: 0 <= i < j < |cs| ==> cs[i].id < cs[j].id)
    && (forall i :: 0 <= i < |cs| ==> cs[i].id < next)
  }

  ghost predicate NotificationKeys(ns: seq<Notification>, next: int) {
    && (forall i, j :: 0 <= i < j < |ns| ==> ns[i].id < ns[j].id)
    && (forall i :: 0 <= i < |ns| ==> ns[i].id < next)
  }

  /** Position of the homework row whose primary key is `id` (findByPk). */
  function FindHomework(hs: seq<Homework>, id: int): (r: Option<nat>)
    ensures r.Some? ==> r.value < |hs| && hs[r.value].id == id
    ensures r.None? <==> forall i :: 0 <= i < |hs| ==> hs[i].id != id
  {
    if hs == [] then None
    else if hs[0].id == id then Some(0)
    else match FindHomework(hs[1..], id)
      case None => None
      case Some(k) => Some(k + 1)
  }

  /** Position of the user row whose primary key is `id` (findByPk). */
  function FindUser(us: seq<User>, id: int): (r: Option<nat>)
    ensures r.Some? ==> r.value < |us| && us[r.value].id == id
    ensures r.None? <==> forall i :: 0 <= i < |us| ==> us[i].id != id
  {
    if us == [] then None
    else if us[0].id == id then Some(0)
    else match FindUser(us[1..], id)
      case None => None
      case Some(k) => Some(k + 1)
  }

  /** Position of the completion of `homeworkId` by `userId` (findOne on the pair). */
  function FindCompletion(cs: seq<Completion>, homeworkId: int, userId: int): (r: Option<nat>)
    ensures r.Some? ==> r.value < |cs| && cs[r.value].homeworkId == homeworkId && cs[r.value].userId == userId
    ensures r.None? <==> forall i :: 0 <= i < |cs| ==> cs[i].homeworkId != homeworkId || cs[i].userId != userId
  {
    if cs == [] then None
    else if cs[0].homeworkId == homeworkId && cs[0].userId == userId then Some(0)
    else match FindCompletion(cs[1..], homeworkId, userId)
      case None => None
      case Some(k) => Some(k + 1)
  }

  /** Position of notification `id` if it belongs to `userId` (findOne on id and owner). */
  function FindOwnedNotification(ns: seq<Notification>, id: int, userId: int): (r: Option<nat>)
    ensures r.Some? ==> r.value < |ns| && ns[r.value].id == id && ns[r.value].userId == userId
    ensures r.None? <==> forall i :: 0 <= i < |ns| ==> ns[i].id != id || ns[i].userId != userId
  {
    if ns == [] then None
    else if ns[0].id == id && ns[0].userId == userId then Some(0)
    else match FindOwnedNotification(ns[1..], id, userId)
      case None => None
      case Some(k) => Some(k + 1)
  }

  /** The homework row whose primary key is `id` (findByPk), if any. */
  function HomeworkById(hs: seq<Homework>, id: int): (r: Option<Homework>)
    ensures r.Some? ==> r.value in hs && r.value.id == id
    ensures r.None? <==> forall h :: h in hs ==> h.id != id
  {
    match FindHomework(hs, id)
    case None => None
    case Some(i) => Some(hs[i])
  }

  /** The user row whose primary key is `id` (findByPk), if any. */
  function UserById(us: seq<User>, id: int): (r: Option<User>)
    ensures r.Some? ==> r.value in us && r.value.id == id
    ensures r.None? <==> forall u :: u in us ==> u.id != id
  {
    match FindUser(us, id)
    case None => None
    case Some(i) => Some(us[i])
  }

  /** Under ascending keys, a row is what a lookup of its own key finds. */
  lemma HomeworkByOwnId(hs: seq<Homework>, h: Homework, next: int)
    requires HomeworkKeys(hs, next) && h in hs
    ensures HomeworkById(hs, h.id) == Some(h)
  {
    var i :| 0 <= i < |hs| && hs[i] == h;
    var j := FindHomework(hs, h.id).value;
    assert i == j;
  }

  lemma UserByOwnId(us: seq<User>, u: User)
    requires UserKeys(us) && u in us
    ensures UserById(us, u.id) == Some(u)
  {
    var i :| 0 <= i < |us| && us[i] == u;
    var j := FindUser(us, u.id).value;
    assert i == j;
  }

  /** The insert of a homework row: the NOT NULL columns title, subject,
      due_date and class must be given, and the due date text must be a date
      (`parse` stands for the Date constructor; None is an Invalid Date).
      None means the ORM rejects the insert. */
  function NewHomeworkRow(id: Id, title: Field, subject: Field, dueText: Option<string>, cls: Field,
                          description: Field, attachment: Field, creatorId: Option<Id>,
                          parse: string -> Option<Time>): (r: Option<Homework>)
    ensures r.Some? <==> title.Some? && subject.Some? && cls.Some? && dueText.Some? && parse(dueText.value).Some?
    ensures r.Some? ==> r.value.id == id && r.value.due.Some? && r.value.creatorId == creatorId
    ensures r.Some? ==> r.value.title == title.value && r.value.subject == subject.value && r.value.cls == cls.value
    ensures r.Some? ==> r.value.due == parse(dueText.value)
    ensures r.Some? ==> r.value.description == description && r.value.attachment == attachment
  {
    if title.None? || subject.None? || cls.None? || dueText.None? then None
    else match parse(dueText.value)
      case None => None
      case Some(t) => Some(Homework(id, title.value, subject.value, Some(t), description, attachment, cls.value, creatorId))
  }

  /** `event.destroy()`: the table without the row of key `id`. */
  function WithoutHomework(hs: seq<Homework>, id: int): (r: seq<Homework>)
    ensures |r| == |hs| - (if FindHomework(hs, id).Some? then 1 else 0)
  {
    match FindHomework(hs, id)
    case None => hs
    case Some(i) => hs[..i] + hs[i + 1..]
  }

  /** Dropping the row at one position keeps the keys ascending and the rows dated. */
  lemma DropKeepsKeys(hs: seq<Homework>, i: int, next: int)
    requires HomeworkKeys(hs, next) && HomeworkRows(hs) && 0 <= i < |hs|
    ensures HomeworkKeys(hs[..i] + hs[i + 1..], next) && HomeworkRows(hs[..i] + hs[i + 1..])
  {
    var r := hs[..i] + hs[i + 1..];
    assert forall k :: 0 <= k < |r| ==> r[k] == hs[if k < i then k else k + 1];
    forall a, b | 0 <= a < b < |r| ensures r[a].id < r[b].id {
      var a', b' := if a < i then a else a + 1, if b < i then b else b + 1;
      assert r[a] == hs[a'] && r[b] == hs[b'];
    }
  }

  /** A row in front of a table keeps it keyed and dated when its key is below
      every key there. */
  lemma ConsKeepsKeys(x: Homework, rest: seq<Homework>, next: int)
    requires HomeworkKeys(rest, next) && HomeworkRows(rest) && x.id < next && x.due.Some?
    requires forall k :: 0 <= k < |rest| ==> x.id < rest[k].id
    ensures HomeworkKeys([x] + rest, next) && HomeworkRows([x] + rest)
  {
    var r := [x] + rest;
    forall a, b | 0 <= a < b < |r| ensures r[a].id < r[b].id {
      assert r[b] == rest[b - 1];
      if a > 0 {
        assert r[a] == rest[a - 1];
      }
    }
  }

  /** Deleting keeps the keys ascending and the rows dated. */
  lemma WithoutHomeworkKeepsKeys(hs: seq<Homework>, id: int, next: int)
    requires HomeworkKeys(hs, next) && HomeworkRows(hs)
    ensures HomeworkKeys(WithoutHomework(hs, id), next) && HomeworkRows(WithoutHomework(hs, id))
  {
    if FindHomework(hs, id).Some? {
      DropKeepsKeys(hs, FindHomework(hs, id).value, next);
    }
  }

  /** Deleting removes the row of that key and no other. */
  lemma WithoutHomeworkRemovesKey(hs: seq<Homework>, id: int, next: int)
    requires HomeworkKeys(hs, next)
    ensures forall h :: h in WithoutHomework(hs, id) <==> h in hs && h.id != id
  {
    if FindHomework(hs, id).Some? {
      var i := FindHomework(hs, id).value;
      var r := WithoutHomework(hs, id);
      assert forall k :: 0 <= k < |r| ==> r[k] == hs[if k < i then k else k + 1];
      forall h ensures h in r <==> h in hs && h.id != id {
        if h in hs && h.id != id {
          var j :| 0 <= j < |hs| && hs[j] == h;
          assert r[if j < i then j else j - 1] == h;
        }
      }
    }
  }

  /** `event.update(...)`: the row with the same key replaced. */
  function ReplaceHomework(hs: seq<Homework>, h: Homework): (r: seq<Homework>)
    ensures |r| == |hs|
  {
    match FindHomework(hs, h.id)
    case None => hs
    case Some(i) => hs[i := h]
  }

  /** Replacing a row by a dated row of the same key keeps the table valid,
      and afterwards that key holds the new row. */
  lemma ReplaceHomeworkKeeps(hs: seq<Homework>, h: Homework, next: int)
    requires HomeworkKeys(hs, next) && HomeworkRows(hs) && h.due.Some?
    ensures HomeworkKeys(ReplaceHomework(hs, h), next) && HomeworkRows(ReplaceHomework(hs, h))
    ensures HomeworkById(hs, h.id).Some? ==> HomeworkById(ReplaceHomework(hs, h), h.id) == Some(h)
    ensures forall g :: g in hs && g.id != h.id ==> g in ReplaceHomework(hs, h)
  {
    match FindHomework(hs, h.id) {
      case None =>
      case Some(i) =>
        var r := ReplaceHomework(hs, h);
        assert forall k :: 0 <= k < |r| ==> r[k].id == hs[k].id;
        var j := FindHomework(r, h.id).value;
        assert j == i;
        forall g | g in hs && g.id != h.id ensures g in r {
          var k :| 0 <= k < |hs| && hs[k] == g;
          assert r[k] == g;
        }
    }
  }

  /** Inserting a dated row under the counter keeps the table valid. */
  lemma AppendHomework(hs: seq<Homework>, h: Homework, next: int)
    requires HomeworkKeys(hs, next) && HomeworkRows(hs) && h.id == next && h.due.Some?
    ensures HomeworkKeys(hs + [h], next + 1) && HomeworkRows(hs + [h])
  {
  }

  /** Appending rows whose keys come after the counter keeps the keys ascending. */
  lemma AppendNotifications(ns: seq<Notification>, more: seq<Notification>, next: int, next': int)
    requires NotificationKeys(ns, next) && NotificationKeys(more, next')
    requires forall n :: n in more ==> next <= n.id
    requires next <= next'
    ensures NotificationKeys(ns + more, next')
  {
    var all := ns + more;
    forall i, j | 0 <= i < j < |all| ensures all[i].id < all[j].id {
      if j >= |ns| && i < |ns| {
        assert all[j] == more[j - |ns|];
        assert all[j] in more;
      }
    }
  }

  class Database {
    var users: seq<User>
    var homework: seq<Homework>
    var completions: seq<Completion>
    var comments: seq<Comment>
    var notifications: seq<Notification>
    var nextHomeworkId: Id
    var nextCompletionId: Id
    var nextCommentId: Id
    var nextNotificationId: Id

    /** The schema's constraints: primary keys, NOT NULL columns and the
        unique (homeworkId, userId) index of completions. */
    ghost predicate Valid()
      reads this
    {
      && UserKeys(users)
      && HomeworkKeys(homework, nextHomeworkId)
      && HomeworkRows(homework)
      && CompletionKeys(completions, nextCompletionId)
      && OnePerPair(completions)
      && CommentKeys(comments, nextCommentId)
      && NotificationKeys(notifications, nextNotificationId)
    }

    /** An empty store holding the given users. */
    constructor (initialUsers: seq<User>)
      requires UserKeys(initialUsers)
      ensures Valid()
      ensures users == initialUsers
      ensures homework == [] && completions == [] && comments == [] && notifications == []
    {
      users := initialUsers;
      homework, completions, comments, notifications := [], [], [], [];
      nextHomeworkId, nextCompletionId, nextCommentId, nextNotificationId := 1, 1, 1, 1;
    }
  }
}
