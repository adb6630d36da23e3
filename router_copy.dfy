/** routes/devoirs.mjs: the router copy of the homework handlers. List, show,
    edit form, update, delete, toggle, export and agenda are the controller's
    code line for line (HomeworkController); what differs is the create
    validation, which is written inline, and the comment handler, which has
    no validator step. */
module RouterCopy {
  import opened Records
  import opened Db
  import opened Policy
  import opened HomeworkController

  /** `title && subject && due_date && classe`: the fields the router requires. */
  predicate RequiredPresent(form: EventForm) {
    Truthy(form.title) && Truthy(form.subject) && Truthy(form.dueDate) && Truthy(form.cls)
  }

  /** The router's create: the form comes back, with nothing written, unless
      all four fields are present; then the controller's create runs. */
  method CreateEvent(db: Database, session: Option<User>, form: EventForm,
                     parse: string -> Option<Time>, fanOutFails: bool) returns (o: Outcome)
    requires db.Valid()
    modifies db
    ensures db.Valid()
    ensures db.users == old(db.users) && db.completions == old(db.completions) && db.comments == old(db.comments)
    ensures !RequiredPresent(form) ==>
              o == FormError && db.homework == old(db.homework) && db.notifications == old(db.notifications)
    ensures RequiredPresent(form) && parse(form.dueDate.value).None? ==>
              o == FormError && db.homework == old(db.homework) && db.notifications == old(db.notifications)
    ensures RequiredPresent(form) && parse(form.dueDate.value).Some? ==>
              var h := CreatedRow(form, session, parse, old(db.nextHomeworkId)).value;
              && o == Redirected
              && db.homework == old(db.homework) + [h]
              && db.notifications == old(db.notifications)
                   + (if session.Some? && !fanOutFails
                      then FanOut(old(db.users), h, session.value.id, old(db.nextNotificationId))
                      else [])
  {
    if !RequiredPresent(form) {
      return FormError;
    }
    o := HomeworkController.CreateEvent(db, session, form, false, parse, fanOutFails);
  }

  /** The router asks for a class even from a non-admin, whose class the
      controller would supply: such a form is refused here and accepted there. */
  lemma ClassRequiredEvenWhenOverridden(form: EventForm, u: User, parse: string -> Option<Time>, id: Id)
    requires !u.isAdmin && form.cls.None?
    requires Truthy(form.title) && Truthy(form.subject) && Truthy(form.dueDate) && parse(form.dueDate.value).Some?
    ensures !RequiredPresent(form)
    ensures CreatedRow(form, Some(u), parse, id).Some?
    ensures CreatedRow(form, Some(u), parse, id).value.cls == u.classe
  {
  }

  /** The router's comment handler: the controller's, without a validator verdict. */
  method PostComment(db: Database, session: Option<User>, homeworkId: Id, content: Field) returns (o: Outcome)
    requires db.Valid()
    modifies db
    ensures db.Valid()
    ensures db.users == old(db.users) && db.homework == old(db.homework) && db.completions == old(db.completions)
    ensures session.None? ==> o == Forbidden
    ensures session.Some? && BlankField(content) ==> o == Redirected
    ensures var row := HomeworkById(old(db.homework), homeworkId);
            var written := session.Some? && !BlankField(content) && row.Some? && CanAccess(session.value, row.value);
            && (session.Some? && !BlankField(content) && row.None? ==> o == NotFound)
            && ((session.Some? && !BlankField(content) && row.Some? && !CanAccess(session.value, row.value)) ==> o == Forbidden)
            && (o == Redirected <==> session.Some? && (BlankField(content) || written))
            && (!written ==> db.comments == old(db.comments) && db.notifications == old(db.notifications))
            && (written ==>
                  && db.comments == old(db.comments) + [Comment(old(db.nextCommentId), content.value, session.value.id, homeworkId)]
                  && db.notifications == old(db.notifications)
                       + AsSeq(CommentNotice(row.value, session.value, old(db.nextNotificationId))))
  {
    o := HomeworkController.PostComment(db, session, homeworkId, content, false);
  }

  /** The two orders of checks: without a session and without the row, the
      show/edit/update/delete/export handlers answer 404 and the comment
      handler 403. */
  lemma NotFoundBeforeLogin(noSession: Outcome)
    ensures Guard(None, None, noSession) == Some(NotFound)
    ensures CommentGuard(None, None) == Some(Forbidden)
  {
  }
}
