/** The homework handlers of controllers/homeworkController.mjs over the
    store: list, create (with the new-homework fan-out), show, comment, edit
    form, update, delete, completion toggle, iCalendar export and agenda.
    The request is reduced to its session user, its body or query fields and
    the ids in its path; the answer to its Outcome and the data it renders. */
module HomeworkController {
  import opened Records
  import opened Db
  import opened Policy
  import opened Completions
  import Listing
  import Calendar
  import Agenda
  import ICal

  /** The fields of the create and edit forms (`req.body`). */
  datatype EventForm = EventForm(
    title: Field,
    subject: Field,
    dueDate: Field,
    time: Field,
    cls: Field,
    className: Field,
    description: Field,
    attachment: Field)

  // ---------------------------------------------------------------------
  // listEvents

  datatype ListPage = ListPage(rows: seq<Listing.ListedRow>, currentSubject: string, currentSort: string)

  /** `f || dflt` for a query field. */
  function TextOr(f: Field, dflt: string): (r: string)
    ensures Truthy(f) ==> r == f.value
    ensures !Truthy(f) ==> r == dflt
  {
    if Truthy(f) then f.value else dflt
  }

  /** The list page: the caller's rows under the where clause, sorted on the
      due date, each carrying the caller's own completion flag. */
  method ListEvents(db: Database, session: Option<User>, subject: Field, sort: Field) returns (o: Outcome, page: Option<ListPage>)
    requires db.Valid()
    ensures session.None? <==> o == ToLogin
    ensures session.None? ==> page.None?
    ensures session.Some? ==> o == Rendered && page.Some?
    ensures page.Some? ==>
              var q := Listing.Query(db.homework, session.value, subject, sort);
              && |page.value.rows| == |q|
              && (forall i :: 0 <= i < |q| ==>
                    page.value.rows[i].homework == q[i]
                    && page.value.rows[i].isCompleted == CompletedFlag(db.completions, session.value.id, q[i].id))
              && page.value.currentSubject == TextOr(subject, "")
              && page.value.currentSort == TextOr(sort, "asc")
  {
    if session.None? {
      return ToLogin, None;
    }
    var u := session.value;
    var events := Listing.Query(db.homework, u, subject, sort);
    var rows := Listing.Annotate(events, db.completions, u.id);
    o, page := Rendered, Some(ListPage(rows, TextOr(subject, ""), TextOr(sort, "asc")));
  }

  // ---------------------------------------------------------------------
  // createEvent

  /** The class stored by a create: a non-admin's own class, whatever was
      submitted; the submitted `class` for an admin or without a session. */
  function CreatedClass(form: EventForm, session: Option<User>): (r: Field)
    ensures session.Some? && !session.value.isAdmin ==> r == Some(session.value.classe)
    ensures session.None? || session.value.isAdmin ==> r == form.cls
  {
    if session.Some? && !session.value.isAdmin then Some(session.value.classe) else form.cls
  }

  /** The row a create inserts, or None when the insert is rejected. */
  function CreatedRow(form: EventForm, session: Option<User>, parse: string -> Option<Time>, id: Id): (r: Option<Homework>)
    ensures r.Some? <==> (form.title.Some? && form.subject.Some? && Truthy(form.dueDate)
                          && parse(form.dueDate.value).Some? && CreatedClass(form, session).Some?)
    ensures r.Some? && session.Some? && !session.value.isAdmin ==> r.value.cls == session.value.classe
    ensures r.Some? && (session.None? || session.value.isAdmin) ==> Some(r.value.cls) == form.cls
    ensures r.Some? ==> r.value.creatorId == (if session.Some? then Some(session.value.id) else None)
    ensures r.Some? ==> r.value.id == id && r.value.due == parse(form.dueDate.value)
    ensures r.Some? ==> r.value.title == form.title.value && r.value.subject == form.subject.value
  {
    NewHomeworkRow(id, form.title, form.subject,
                   if Truthy(form.dueDate) then Some(form.dueDate.value) else None,
                   CreatedClass(form, session), form.description, form.attachment,
                   if session.Some? then Some(session.value.id) else None, parse)
  }

  function NewHomeworkMessage(title: string, subject: string): string {
    "Nouveau devoir : " + title + " (" + subject + ")"
  }

  /** `Users.findAll({ where: { classe, id: { [Op.ne]: creator } } })`, in table order. */
  function Recipients(us: seq<User>, cls: string, creatorId: Id): (r: seq<User>)
    ensures forall u :: u in r <==> u in us && u.classe == cls && u.id != creatorId
  {
    if us == [] then []
    else (if us[0].classe == cls && us[0].id != creatorId then [us[0]] else []) + Recipients(us[1..], cls, creatorId)
  }

  /** A key below every user key is below every recipient's key. */
  lemma RecipientsAbove(us: seq<User>, cls: string, creatorId: Id, x: Id)
    requires forall k :: 0 <= k < |us| ==> x < us[k].id
    ensures forall k :: 0 <= k < |Recipients(us, cls, creatorId)| ==> x < Recipients(us, cls, creatorId)[k].id
  {
    var r := Recipients(us, cls, creatorId);
    forall k | 0 <= k < |r| ensures x < r[k].id {
      assert r[k] in r;
      var j :| 0 <= j < |us| && us[j] == r[k];
    }
  }

  /** A user in front of a list keeps its keys ascending when its key is below all of them. */
  lemma ConsKeepsUserKeys(x: User, rest: seq<User>)
    requires UserKeys(rest) && forall k :: 0 <= k < |rest| ==> x.id < rest[k].id
    ensures UserKeys([x] + rest)
  {
    var r := [x] + rest;
    forall a, b | 0 <= a < b < |r| ensures r[a].id < r[b].id {
      assert r[b] == rest[b - 1];
      if a > 0 {
        assert r[a] == rest[a - 1];
      }
    }
  }

  /** The recipients come in ascending key order, as the users table does. */
  lemma {:induction false} RecipientsKeepKeys(us: seq<User>, cls: string, creatorId: Id)
    requires UserKeys(us)
    ensures UserKeys(Recipients(us, cls, creatorId))
  {
    if us != [] {
      var tail := us[1..];
      forall i, j | 0 <= i < j < |tail| ensures tail[i].id < tail[j].id {
        assert tail[i] == us[i + 1] && tail[j] == us[j + 1];
      }
      RecipientsKeepKeys(tail, cls, creatorId);
      var rest := Recipients(tail, cls, creatorId);
      if us[0].classe == cls && us[0].id != creatorId {
        forall k | 0 <= k < |tail| ensures us[0].id < tail[k].id {
          assert tail[k] == us[k + 1];
        }
        RecipientsAbove(tail, cls, creatorId, us[0].id);
        assert Recipients(us, cls, creatorId) == [us[0]] + rest;
        ConsKeepsUserKeys(us[0], rest);
      } else {
        assert Recipients(us, cls, creatorId) == rest;
      }
    }
  }

  /** The bulkCreate rows: one unread new_homework notification per recipient,
      numbered on from the counter. */
  function Notices(rs: seq<User>, homeworkId: Id, message: string, nextId: Id): (r: seq<Notification>)
    ensures |r| == |rs|
    ensures forall i :: 0 <= i < |r| ==>
              r[i] == Notification(nextId + i, rs[i].id, Some(homeworkId), NewHomework, message, false)
  {
    if rs == [] then []
    else [Notification(nextId, rs[0].id, Some(homeworkId), NewHomework, message, false)]
         + Notices(rs[1..], homeworkId, message, nextId + 1)
  }

  /** The new-homework fan-out of a created row. */
  function FanOut(us: seq<User>, h: Homework, creatorId: Id, nextId: Id): seq<Notification> {
    Notices(Recipients(us, h.cls, creatorId), h.id, NewHomeworkMessage(h.title, h.subject), nextId)
  }

  /** Every user of the row's class other than the creator gets a notification. */
  lemma FanOutReachesMember(us: seq<User>, h: Homework, creatorId: Id, nextId: Id, u: User)
    requires u in us && u.classe == h.cls && u.id != creatorId
    ensures exists n :: n in FanOut(us, h, creatorId, nextId) && n.userId == u.id
  {
    var rs := Recipients(us, h.cls, creatorId);
    var ns := FanOut(us, h, creatorId, nextId);
    var k :| 0 <= k < |rs| && rs[k] == u;
    assert ns[k] in ns && ns[k].userId == u.id;
  }

  /** A notified user is of the row's class and is not the creator: user keys
      are unique, so the recipient with that key is that user. */
  lemma FanOutOnlyMembers(us: seq<User>, h: Homework, creatorId: Id, nextId: Id, u: User, n: Notification)
    requires UserKeys(us) && u in us
    requires n in FanOut(us, h, creatorId, nextId) && n.userId == u.id
    ensures u.classe == h.cls && u.id != creatorId
  {
    var rs := Recipients(us, h.cls, creatorId);
    var ns := FanOut(us, h, creatorId, nextId);
    var k :| 0 <= k < |ns| && ns[k] == n;
    var r := rs[k];
    assert r in rs && r.id == u.id;
    var a :| 0 <= a < |us| && us[a] == r;
    var b :| 0 <= b < |us| && us[b] == u;
    assert a == b;
  }

  /** The fan-out rows: in recipient key order, each an unread new-homework
      notice about the row, keyed on from the counter. */
  lemma FanOutRows(us: seq<User>, h: Homework, creatorId: Id, nextId: Id)
    requires UserKeys(us)
    ensures var ns := FanOut(us, h, creatorId, nextId);
            && (forall i, j :: 0 <= i < j < |ns| ==> ns[i].userId < ns[j].userId)
            && (forall n :: n in ns ==>
                  n.kind == NewHomework && !n.read && n.homeworkId == Some(h.id)
                  && n.message == NewHomeworkMessage(h.title, h.subject) && nextId <= n.id)
            && NotificationKeys(ns, nextId + |ns|)
  {
    var rs := Recipients(us, h.cls, creatorId);
    var ns := FanOut(us, h, creatorId, nextId);
    RecipientsKeepKeys(us, h.cls, creatorId);
    forall i, j | 0 <= i < j < |ns| ensures ns[i].userId < ns[j].userId {
      assert ns[i].userId == rs[i].id && ns[j].userId == rs[j].id;
    }
  }

  /** Exactly the users of the row's class other than the creator are
      notified, each once, unread, about that row, with ids after the counter. */
  lemma FanOutReachesClass(us: seq<User>, h: Homework, creatorId: Id, nextId: Id)
    requires UserKeys(us)
    ensures var ns := FanOut(us, h, creatorId, nextId);
            && (forall u :: u in us ==>
                  ((exists n :: n in ns && n.userId == u.id) <==> u.classe == h.cls && u.id != creatorId))
            && (forall i, j :: 0 <= i < j < |ns| ==> ns[i].userId < ns[j].userId)
            && (forall n :: n in ns ==>
                  n.kind == NewHomework && !n.read && n.homeworkId == Some(h.id)
                  && n.message == NewHomeworkMessage(h.title, h.subject) && nextId <= n.id)
            && NotificationKeys(ns, nextId + |ns|)
  {
    var ns := FanOut(us, h, creatorId, nextId);
    FanOutRows(us, h, creatorId, nextId);
    forall u | u in us
      ensures (exists n :: n in ns && n.userId == u.id) <==> u.classe == h.cls && u.id != creatorId
    {
      if u.classe == h.cls && u.id != creatorId {
        FanOutReachesMember(us, h, creatorId, nextId, u);
      }
      if n :| n in ns && n.userId == u.id {
        FanOutOnlyMembers(us, h, creatorId, nextId, u, n);
      }
    }
  }

  /** createEvent. `validationFailed` is the verdict of the request's
      validators; `parse` is the Date constructor; `fanOutFails` says that
      the user lookup or the bulk insert of notifications throws, which is
      caught and logged without undoing the created row. */
  method CreateEvent(db: Database, session: Option<User>, form: EventForm, validationFailed: bool,
                     parse: string -> Option<Time>, fanOutFails: bool) returns (o: Outcome)
    requires db.Valid()
    modifies db
    ensures db.Valid()
    ensures db.users == old(db.users) && db.completions == old(db.completions) && db.comments == old(db.comments)
    ensures validationFailed || CreatedRow(form, session, parse, old(db.nextHomeworkId)).None? ==>
              o == FormError && db.homework == old(db.homework) && db.notifications == old(db.notifications)
    ensures !validationFailed && CreatedRow(form, session, parse, old(db.nextHomeworkId)).Some? ==>
              var h := CreatedRow(form, session, parse, old(db.nextHomeworkId)).value;
              && o == Redirected
              && db.homework == old(db.homework) + [h]
              && db.notifications == old(db.notifications)
                   + (if session.Some? && !fanOutFails
                      then FanOut(old(db.users), h, session.value.id, old(db.nextNotificationId))
                      else [])
  {
    if validationFailed {
      return FormError;
    }
    var row := CreatedRow(form, session, parse, db.nextHomeworkId);
    if row.None? {
      return FormError;
    }
    var h := row.value;
    AppendHomework(db.homework, h, db.nextHomeworkId);
    db.homework := db.homework + [h];
    db.nextHomeworkId := db.nextHomeworkId + 1;
    if session.Some? && !fanOutFails {
      NotifyClass(db, h, session.value.id);
    }
    o := Redirected;
  }

  /** The fan-out step of createEvent: the bulk insert of the notifications. */
  method NotifyClass(db: Database, h: Homework, creatorId: Id)
    requires db.Valid()
    modifies db
    ensures db.Valid()
    ensures db.users == old(db.users) && db.homework == old(db.homework)
    ensures db.completions == old(db.completions) && db.comments == old(db.comments)
    ensures db.notifications == old(db.notifications) + FanOut(old(db.users), h, creatorId, old(db.nextNotificationId))
  {
    var ns := FanOut(db.users, h, creatorId, db.nextNotificationId);
    FanOutReachesClass(db.users, h, creatorId, db.nextNotificationId);
    AppendNotifications(db.notifications, ns, db.nextNotificationId, db.nextNotificationId + |ns|);
    db.notifications := db.notifications + ns;
    db.nextNotificationId := db.nextNotificationId + |ns|;
  }

  // ---------------------------------------------------------------------
  // showEvent and showEditForm

  /** The comments of one homework item, in table order. */
  function CommentsOf(cs: seq<Comment>, homeworkId: int): (r: seq<Comment>)
    ensures forall c :: c in r <==> c in cs && c.homeworkId == homeworkId
  {
    if cs == [] then []
    else (if cs[0].homeworkId == homeworkId then [cs[0]] else []) + CommentsOf(cs[1..], homeworkId)
  }

  datatype EventPage = EventPage(event: Homework, comments: seq<Comment>)

  /** showEvent: the row and its comments, for a caller the access rule admits. */
  function ShowEvent(hs: seq<Homework>, cs: seq<Comment>, id: int, session: Option<User>): (r: (Outcome, Option<EventPage>))
    ensures HomeworkById(hs, id).None? ==> r.0 == NotFound
    ensures HomeworkById(hs, id).Some? && session.None? ==> r.0 == ToLogin
    ensures (HomeworkById(hs, id).Some? && session.Some? && !CanAccess(session.value, HomeworkById(hs, id).value))
              ==> r.0 == Forbidden
    ensures r.0 == Rendered <==>
              HomeworkById(hs, id).Some? && session.Some? && CanAccess(session.value, HomeworkById(hs, id).value)
    ensures r.0 == Rendered ==>
              r.1 == Some(EventPage(HomeworkById(hs, id).value, CommentsOf(cs, id)))
    ensures r.0 != Rendered ==> r.1.None?
    ensures r.0 in {NotFound, ToLogin, Forbidden, Rendered}
  {
    var row := HomeworkById(hs, id);
    match Guard(row, session, ToLogin)
    case Some(refusal) => (refusal, None)
    case None => (Rendered, Some(EventPage(row.value, CommentsOf(cs, id))))
  }

  /** showEditForm: the row, for a caller the access rule admits. */
  function ShowEditForm(hs: seq<Homework>, id: int, session: Option<User>): (r: (Outcome, Option<Homework>))
    ensures HomeworkById(hs, id).None? ==> r.0 == NotFound
    ensures HomeworkById(hs, id).Some? && session.None? ==> r.0 == ToLogin
    ensures (HomeworkById(hs, id).Some? && session.Some? && !CanAccess(session.value, HomeworkById(hs, id).value))
              ==> r.0 == Forbidden
    ensures r.0 == Rendered <==>
              HomeworkById(hs, id).Some? && session.Some? && CanAccess(session.value, HomeworkById(hs, id).value)
    ensures r.0 == Rendered ==> r.1 == HomeworkById(hs, id)
    ensures r.0 != Rendered ==> r.1.None?
  {
    var row := HomeworkById(hs, id);
    match Guard(row, session, ToLogin)
    case Some(refusal) => (refusal, None)
    case None => (Rendered, row)
  }

  // ---------------------------------------------------------------------
  // postComment

  /** The notification a comment sends: to the row's creator, when there is
      one and it is not the commenter. */
  function CommentNotice(h: Homework, commenter: User, nextId: Id): (r: Option<Notification>)
    ensures r.Some? <==> h.creatorId.Some? && h.creatorId.value != commenter.id
    ensures r.Some? ==> r.value.id == nextId && r.value.userId == h.creatorId.value
                        && r.value.homeworkId == Some(h.id) && r.value.kind == CommentPosted && !r.value.read
    ensures r.Some? ==> r.value.message == commenter.username + " a commenté votre devoir \"" + h.title + "\""
  {
    if h.creatorId.Some? && h.creatorId.value != commenter.id then
      Some(Notification(nextId, h.creatorId.value, Some(h.id), CommentPosted,
                        commenter.username + " a commenté votre devoir \"" + h.title + "\"", false))
    else None
  }

  function AsSeq(n: Option<Notification>): seq<Notification> {
    if n.Some? then [n.value] else []
  }

  /** postComment: the session first, then the validators, then a blank
      content (all three before the row is looked up), then the access rule. */
  method PostComment(db: Database, session: Option<User>, homeworkId: Id, content: Field, validationFailed: bool)
    returns (o: Outcome)
    requires db.Valid()
    modifies db
    ensures db.Valid()
    ensures db.users == old(db.users) && db.homework == old(db.homework) && db.completions == old(db.completions)
    ensures session.None? ==> o == Forbidden
    ensures session.Some? && (validationFailed || BlankField(content)) ==> o == Redirected
    ensures var row := HomeworkById(old(db.homework), homeworkId);
            var written := session.Some? && !validationFailed && !BlankField(content)
                           && row.Some? && CanAccess(session.value, row.value);
            && (session.Some? && !validationFailed && !BlankField(content) && row.None? ==> o == NotFound)
            && ((session.Some? && !validationFailed && !BlankField(content) && row.Some?
                 && !CanAccess(session.value, row.value)) ==> o == Forbidden)
            && (!written ==> db.comments == old(db.comments) && db.notifications == old(db.notifications))
            && (written ==>
                  && o == Redirected
                  && db.comments == old(db.comments) + [Comment(old(db.nextCommentId), content.value, session.value.id, homeworkId)]
                  && db.notifications == old(db.notifications)
                       + AsSeq(CommentNotice(row.value, session.value, old(db.nextNotificationId))))
  {
    if session.None? {
      return Forbidden;
    }
    if validationFailed || BlankField(content) {
      return Redirected;
    }
    var row := HomeworkById(db.homework, homeworkId);
    var refusal := CommentGuard(row, session);
    if refusal.Some? {
      return refusal.value;
    }
    AddComment(db, row.value, session.value, homeworkId, content.value);
    o := Redirected;
  }

  /** The writes of postComment: `Comments.create`, then the creator's
      notification when the commenter is someone else. */
  method AddComment(db: Database, h: Homework, commenter: User, homeworkId: Id, content: string)
    requires db.Valid()
    modifies db
    ensures db.Valid()
    ensures db.users == old(db.users) && db.homework == old(db.homework) && db.completions == old(db.completions)
    ensures db.comments == old(db.comments) + [Comment(old(db.nextCommentId), content, commenter.id, homeworkId)]
    ensures db.notifications == old(db.notifications) + AsSeq(CommentNotice(h, commenter, old(db.nextNotificationId)))
  {
    db.comments := db.comments + [Comment(db.nextCommentId, content, commenter.id, homeworkId)];
    db.nextCommentId := db.nextCommentId + 1;
    var notice := CommentNotice(h, commenter, db.nextNotificationId);
    if notice.Some? {
      db.notifications := db.notifications + [notice.value];
      db.nextNotificationId := db.nextNotificationId + 1;
    }
  }

  // ---------------------------------------------------------------------
  // updateEvent

  /** `req.body["class"] || req.body.className || ""`. */
  function SubmittedClass(form: EventForm): (r: string)
    ensures Truthy(form.cls) ==> r == form.cls.value
    ensures !Truthy(form.cls) && Truthy(form.className) ==> r == form.className.value
    ensures !Truthy(form.cls) && !Truthy(form.className) ==> r == ""
  {
    TextOr(OrElse(form.cls, form.className), "")
  }

  /** A field the form leaves out keeps the stored value. */
  function KeepOr<T>(f: Option<T>, stored: T): T {
    if f.Some? then f.value else stored
  }

  /** The row after an update, or None when the rebuilt due date is not a
      date (the ORM rejects it). `classOverride` is the class forced on a
      non-admin; without one the submitted class is stored. */
  function UpdatedRow(h: Homework, form: EventForm, classOverride: Option<string>, parse: string -> Option<Time>): (r: Option<Homework>)
    ensures r.None? <==> Truthy(form.dueDate) && parse(BuildDueDate(form.dueDate, form.time).value).None?
    ensures r.Some? ==> r.value.id == h.id && r.value.creatorId == h.creatorId
    ensures r.Some? && !Truthy(form.dueDate) ==> r.value.due == h.due
    ensures r.Some? && Truthy(form.dueDate) ==> r.value.due == parse(BuildDueDate(form.dueDate, form.time).value)
    ensures r.Some? && classOverride.Some? ==> r.value.cls == classOverride.value
    ensures r.Some? && classOverride.None? ==> r.value.cls == SubmittedClass(form)
    ensures r.Some? ==> r.value.title == KeepOr(form.title, h.title) && r.value.subject == KeepOr(form.subject, h.subject)
    ensures r.Some? ==> r.value.description == (if form.description.Some? then form.description else h.description)
    ensures r.Some? ==> r.value.attachment == (if form.attachment.Some? then form.attachment else h.attachment)
  {
    var due := if Truthy(form.dueDate) then parse(BuildDueDate(form.dueDate, form.time).value) else h.due;
    if Truthy(form.dueDate) && due.None? then None
    else Some(h.(title := KeepOr(form.title, h.title),
                 subject := KeepOr(form.subject, h.subject),
                 due := due,
                 description := if form.description.Some? then form.description else h.description,
                 attachment := if form.attachment.Some? then form.attachment else h.attachment,
                 cls := KeepOr(classOverride, SubmittedClass(form))))
  }

  /** The class the controller forces on a caller. */
  function ClassOverride(u: User): (r: Option<string>)
    ensures r.None? <==> u.isAdmin
    ensures r.Some? ==> r.value == u.classe
  {
    if u.isAdmin then None else Some(u.classe)
  }

  /** updateEvent: not-found before the session, then the access rule on the
      stored row, then the write. */
  method UpdateEvent(db: Database, session: Option<User>, id: int, form: EventForm, parse: string -> Option<Time>)
    returns (o: Outcome)
    requires db.Valid()
    modifies db
    ensures db.Valid()
    ensures db.users == old(db.users) && db.completions == old(db.completions)
    ensures db.comments == old(db.comments) && db.notifications == old(db.notifications)
    ensures var row := HomeworkById(old(db.homework), id);
            && (row.None? ==> o == NotFound)
            && (row.Some? && session.None? ==> o == Forbidden)
            && (row.Some? && session.Some? && !CanAccess(session.value, row.value) ==> o == Forbidden)
            && (o != Redirected ==> db.homework == old(db.homework))
            && (o == Redirected <==>
                  row.Some? && session.Some? && CanAccess(session.value, row.value)
                  && UpdatedRow(row.value, form, ClassOverride(session.value), parse).Some?)
            && (o == Redirected ==>
                  db.homework == ReplaceHomework(old(db.homework), UpdatedRow(row.value, form, ClassOverride(session.value), parse).value))
            && ((row.Some? && session.Some? && CanAccess(session.value, row.value)
                 && UpdatedRow(row.value, form, ClassOverride(session.value), parse).None?) ==> o == ServerError)
  {
    var row := HomeworkById(db.homework, id);
    var refusal := Guard(row, session, Forbidden);
    if refusal.Some? {
      return refusal.value;
    }
    var updated := UpdatedRow(row.value, form, ClassOverride(session.value), parse);
    if updated.None? {
      return ServerError;
    }
    ReplaceHomeworkKeeps(db.homework, updated.value, db.nextHomeworkId);
    db.homework := ReplaceHomework(db.homework, updated.value);
    o := Redirected;
  }

  // ---------------------------------------------------------------------
  // deleteEvent

  method DeleteEvent(db: Database, session: Option<User>, id: int) returns (o: Outcome)
    requires db.Valid()
    modifies db
    ensures db.Valid()
    ensures db.users == old(db.users) && db.completions == old(db.completions)
    ensures db.comments == old(db.comments) && db.notifications == old(db.notifications)
    ensures var row := HomeworkById(old(db.homework), id);
            && (row.None? ==> o == NotFound)
            && (row.Some? && session.None? ==> o == Forbidden)
            && (row.Some? && session.Some? && !CanAccess(session.value, row.value) ==> o == Forbidden)
            && (o == Redirected <==> row.Some? && session.Some? && CanAccess(session.value, row.value))
            && (o != Redirected ==> db.homework == old(db.homework))
            && (o == Redirected ==> db.homework == WithoutHomework(old(db.homework), id))
  {
    var row := HomeworkById(db.homework, id);
    var refusal := Guard(row, session, Forbidden);
    if refusal.Some? {
      return refusal.value;
    }
    WithoutHomeworkKeepsKeys(db.homework, id, db.nextHomeworkId);
    db.homework := WithoutHomework(db.homework, id);
    o := Redirected;
  }

  // ---------------------------------------------------------------------
  // toggleCompletion

  /** toggleCompletion: no access check and no check that the homework
      exists; the JSON answer carries the new flag. */
  method ToggleCompletion(db: Database, session: Option<User>, homeworkId: Id) returns (o: Outcome, completed: Option<bool>)
    requires db.Valid()
    modifies db
    ensures db.Valid()
    ensures db.users == old(db.users) && db.homework == old(db.homework)
    ensures db.comments == old(db.comments) && db.notifications == old(db.notifications)
    ensures session.None? ==> o == Forbidden && completed.None? && db.completions == old(db.completions)
    ensures session.Some? ==>
              && o == Rendered && completed.Some?
              && (db.completions, completed.value)
                   == Toggled(old(db.completions), homeworkId, session.value.id, old(db.nextCompletionId))
  {
    if session.None? {
      return Forbidden, None;
    }
    var (cs, v) := Toggled(db.completions, homeworkId, session.value.id, db.nextCompletionId);
    ToggleFlips(db.completions, homeworkId, session.value.id, db.nextCompletionId);
    ToggleKeepsKeys(db.completions, homeworkId, session.value.id, db.nextCompletionId);
    db.completions := cs;
    db.nextCompletionId := db.nextCompletionId + 1;
    o, completed := Rendered, Some(v);
  }

  // ---------------------------------------------------------------------
  // exportIcal

  /** exportIcal: the payload of the row, for a caller the access rule admits.
      `now` is the export instant and `compact` the stamp formatter. */
  function ExportIcal(hs: seq<Homework>, id: int, session: Option<User>, now: Time, compact: Time -> string)
    : (r: (Outcome, Option<string>))
    ensures HomeworkById(hs, id).None? ==> r.0 == NotFound
    ensures HomeworkById(hs, id).Some? && session.None? ==> r.0 == ToLogin
    ensures (HomeworkById(hs, id).Some? && session.Some? && !CanAccess(session.value, HomeworkById(hs, id).value))
              ==> r.0 == Forbidden
    ensures r.0 == Rendered <==>
              HomeworkById(hs, id).Some? && session.Some? && CanAccess(session.value, HomeworkById(hs, id).value)
    ensures r.0 == Rendered ==> r.1 == Some(ICal.Ics(HomeworkById(hs, id).value, now, compact))
    ensures r.0 != Rendered ==> r.1.None?
  {
    var row := HomeworkById(hs, id);
    match Guard(row, session, ToLogin)
    case Some(refusal) => (refusal, None)
    case None => (Rendered, Some(ICal.Ics(row.value, now, compact)))
  }

  // ---------------------------------------------------------------------
  // showAgenda

  datatype AgendaPage = AgendaPage(
    view: Agenda.MonthView,
    todayDay: Option<int>,
    year: int,
    prev: Calendar.YearMonth,
    next: Calendar.YearMonth)

  /** `parseInt(req.query.year) || now.getFullYear()`: a missing, unreadable
      or zero year falls back to the current one. */
  function QueryYear(yearQuery: Option<int>, today: CivilDate): int {
    if yearQuery.Some? && yearQuery.value != 0 then yearQuery.value else today.year
  }

  /** `req.query.month ? parseInt(req.query.month) : now.getMonth() + 1`. */
  function QueryMonth(monthQuery: Option<int>, today: CivilDate): int {
    if monthQuery.Some? then monthQuery.value else today.month
  }

  /** showAgenda. `today` is the server's current date; `yearQuery` and
      `monthQuery` the numbers read from the query (None when absent). The
      displayed month is where `new Date(year, month - 1, 1)` lands, a year
      of 0 to 99 read as 1900 to 1999. */
  method ShowAgenda(hs: seq<Homework>, session: Option<User>, today: CivilDate,
                    yearQuery: Option<int>, monthQuery: Option<int>) returns (o: Outcome, page: Option<AgendaPage>)
    ensures session.None? <==> o == ToLogin
    ensures session.None? ==> page.None?
    ensures session.Some? ==> o == Rendered && page.Some?
    ensures page.Some? ==>
              var year := QueryYear(yearQuery, today);
              var month := QueryMonth(monthQuery, today);
              var ym := Calendar.DateMonth(year, month - 1);
              var p := page.value;
              && AccessibleMonth(p.view, hs, session.value, ym)
              && (p.todayDay.Some? <==> today.year == year && today.month == month)
              && (p.todayDay.Some? ==> p.todayDay.value == today.day)
              && p.year == year
              && p.prev == Calendar.PrevMonthLink(year, month)
              && p.next == Calendar.NextMonthLink(year, month)
  {
    var year := QueryYear(yearQuery, today);
    var month := QueryMonth(monthQuery, today);
    var ym := Calendar.DateMonth(year, month - 1);
    if session.None? {
      return ToLogin, None;
    }
    var view := AccessibleMonthView(hs, session.value, ym);
    var todayDay := if today.year == year && today.month == month then Some(today.day) else None;
    o := Rendered;
    page := Some(AgendaPage(view, todayDay, year, Calendar.PrevMonthLink(year, month), Calendar.NextMonthLink(year, month)));
  }

  /** The `eventsByDay` of showAgenda for the month `ym`: a day has a bucket
      exactly when a row the caller may access is due on it within the
      month's window; the bucket holds exactly those rows, by ascending due
      date. */
  ghost predicate AccessibleBucketsOf(byDay: map<int, seq<Homework>>, hs: seq<Homework>, u: User, ym: Calendar.YearMonth)
    requires Calendar.ValidMonth(ym)
  {
    var start, end := Agenda.MonthStart(ym), Agenda.MonthEnd(ym);
    && (forall d :: d in byDay <==>
          exists h :: h in hs && CanAccess(u, h) && Agenda.InWindow(h, start, end) && Agenda.DayOfMonth(h.due.value, start) == d)
    && (forall d :: d in byDay ==>
          forall h :: h in byDay[d] <==>
            h in hs && CanAccess(u, h) && Agenda.InWindow(h, start, end) && Agenda.DayOfMonth(h.due.value, start) == d)
    && (forall d :: d in byDay ==> Listing.SortedBy(byDay[d], false))
  }

  /** The page of the month `ym`: its grid, and its buckets as above. */
  ghost predicate AccessibleMonth(view: Agenda.MonthView, hs: seq<Homework>, u: User, ym: Calendar.YearMonth)
    requires Calendar.ValidMonth(ym)
  {
    && Calendar.IsGrid(view.weeks, Calendar.FirstWeekday(ym), Calendar.DaysInMonth(ym))
    && AccessibleBucketsOf(view.eventsByDay, hs, u, ym)
  }

  /** The month view of showAgenda: the rows the caller may access, fetched by
      ascending due date, filtered to the month's window and bucketed by day. */
  method AccessibleMonthView(hs: seq<Homework>, u: User, ym: Calendar.YearMonth) returns (view: Agenda.MonthView)
    requires Calendar.ValidMonth(ym)
    ensures AccessibleMonth(view, hs, u, ym)
  {
    var rows := Listing.Query(hs, u, None, None);
    Listing.QueryContents(hs, u, None, None);
    view := Agenda.BuildMonthView(rows, ym);
    assert forall h :: Listing.Matches(u, None, h) <==> CanAccess(u, h);
    AccessibleBuckets(hs, u, rows, view.eventsByDay, Agenda.MonthStart(ym), Agenda.MonthEnd(ym));
  }

  /** The buckets built from the fetched rows, restated over the table: the
      rows fetched are exactly the ones the caller may access. */
  lemma AccessibleBuckets(hs: seq<Homework>, u: User, rows: seq<Homework>, byDay: map<int, seq<Homework>>,
                          start: Time, end: Time)
    requires forall h :: h in rows <==> h in hs && CanAccess(u, h)
    requires forall d :: d in byDay <==>
               exists h :: h in rows && Agenda.InWindow(h, start, end) && Agenda.DayOfMonth(h.due.value, start) == d
    requires forall d, h :: d in byDay ==>
               (h in byDay[d] <==> h in rows && Agenda.InWindow(h, start, end) && Agenda.DayOfMonth(h.due.value, start) == d)
    ensures forall d :: d in byDay <==>
              exists h :: h in hs && CanAccess(u, h) && Agenda.InWindow(h, start, end) && Agenda.DayOfMonth(h.due.value, start) == d
    ensures forall d :: d in byDay ==>
              forall h :: h in byDay[d] <==>
                h in hs && CanAccess(u, h) && Agenda.InWindow(h, start, end) && Agenda.DayOfMonth(h.due.value, start) == d
  {
    forall d ensures d in byDay <==>
      exists h :: h in hs && CanAccess(u, h) && Agenda.InWindow(h, start, end) && Agenda.DayOfMonth(h.due.value, start) == d
    {
      if d in byDay {
        var h :| h in rows && Agenda.InWindow(h, start, end) && Agenda.DayOfMonth(h.due.value, start) == d;
        assert h in hs && CanAccess(u, h);
      }
      if h :| h in hs && CanAccess(u, h) && Agenda.InWindow(h, start, end) && Agenda.DayOfMonth(h.due.value, start) == d {
        assert h in rows;
      }
    }
  }
}
