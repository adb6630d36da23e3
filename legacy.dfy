/** src/routes/devoirs.mjs: the older router, without sessions. Every
    handler works on every row; create and update store the class typed in
    the form, and the agenda takes a 0-based month. */
module LegacyRouter {
  import opened Records
  import opened Db
  import opened Policy
  import Listing
  import Calendar
  import Agenda
  import ICal
  import opened HomeworkController

  /** The index: the whole table, ascending by due date. */
  function ListAll(hs: seq<Homework>): (r: seq<Homework>)
    ensures Listing.SortedBy(r, false)
    ensures multiset(r) == multiset(hs)
  {
    Listing.SortByDue(hs, false)
  }

  /** The fields the create insists on: a title, a date, and a class from
      either of the two form names. */
  predicate LegacyRequired(form: EventForm) {
    Truthy(form.title) && Truthy(form.dueDate) && SubmittedClass(form) != ""
  }

  /** The row the create inserts: no creator, the submitted class. */
  function LegacyRow(form: EventForm, parse: string -> Option<Time>, id: Id): (r: Option<Homework>)
    requires LegacyRequired(form)
    ensures r.Some? <==> form.subject.Some? && parse(BuildDueDate(form.dueDate, form.time).value).Some?
    ensures r.Some? ==> r.value.id == id && r.value.creatorId.None? && r.value.cls == SubmittedClass(form)
    ensures r.Some? ==> r.value.title == form.title.value && r.value.subject == form.subject.value
    ensures r.Some? ==> r.value.due == parse(BuildDueDate(form.dueDate, form.time).value)
  {
    NewHomeworkRow(id, form.title, form.subject, BuildDueDate(form.dueDate, form.time), Some(SubmittedClass(form)),
                   form.description, form.attachment, None, parse)
  }

  /** The create: 400 without the required fields; 500 when the insert is
      refused (no subject, or a date the Date constructor cannot read);
      otherwise one row more and nobody notified. */
  method CreateEvent(db: Database, form: EventForm, parse: string -> Option<Time>) returns (o: Outcome)
    requires db.Valid()
    modifies db
    ensures db.Valid()
    ensures db.users == old(db.users) && db.completions == old(db.completions)
    ensures db.comments == old(db.comments) && db.notifications == old(db.notifications)
    ensures !LegacyRequired(form) ==> o == BadRequest && db.homework == old(db.homework)
    ensures LegacyRequired(form) && LegacyRow(form, parse, old(db.nextHomeworkId)).None? ==>
              o == ServerError && db.homework == old(db.homework)
    ensures LegacyRequired(form) && LegacyRow(form, parse, old(db.nextHomeworkId)).Some? ==>
              o == Redirected && db.homework == old(db.homework) + [LegacyRow(form, parse, old(db.nextHomeworkId)).value]
  {
    if !LegacyRequired(form) {
      return BadRequest;
    }
    var row := LegacyRow(form, parse, db.nextHomeworkId);
    if row.None? {
      return ServerError;
    }
    AppendHomework(db.homework, row.value, db.nextHomeworkId);
    db.homework := db.homework + [row.value];
    db.nextHomeworkId := db.nextHomeworkId + 1;
    o := Redirected;
  }

  /** A subject is not among the required fields, yet the column is NOT NULL:
      a form that passes the check without one is refused by the insert. */
  lemma MissingSubjectIsServerError(form: EventForm, parse: string -> Option<Time>, id: Id)
    requires LegacyRequired(form) && form.subject.None?
    ensures LegacyRow(form, parse, id).None?
  {
  }

  /** Show and the edit form: the row, or 404. */
  function ShowEvent(hs: seq<Homework>, id: int): (r: (Outcome, Option<Homework>))
    ensures r.0 == NotFound <==> forall h :: h in hs ==> h.id != id
    ensures r.0 != NotFound ==> r.0 == Rendered && r.1.Some? && r.1.value in hs && r.1.value.id == id
    ensures r.0 == NotFound ==> r.1.None?
  {
    match HomeworkById(hs, id)
    case None => (NotFound, None)
    case Some(h) => (Rendered, Some(h))
  }

  /** The update: 404, or the row rewritten from the form with the submitted
      class (an empty one when the form has none), or 500 when the rebuilt
      due date is not a date. */
  method UpdateEvent(db: Database, id: int, form: EventForm, parse: string -> Option<Time>) returns (o: Outcome)
    requires db.Valid()
    modifies db
    ensures db.Valid()
    ensures db.users == old(db.users) && db.completions == old(db.completions)
    ensures db.comments == old(db.comments) && db.notifications == old(db.notifications)
    ensures var row := HomeworkById(old(db.homework), id);
            && (row.None? ==> o == NotFound && db.homework == old(db.homework))
            && (row.Some? && UpdatedRow(row.value, form, None, parse).None? ==>
                  o == ServerError && db.homework == old(db.homework))
            && (row.Some? && UpdatedRow(row.value, form, None, parse).Some? ==>
                  o == Redirected
                  && db.homework == ReplaceHomework(old(db.homework), UpdatedRow(row.value, form, None, parse).value)
                  && HomeworkById(db.homework, id) == UpdatedRow(row.value, form, None, parse)
                  && UpdatedRow(row.value, form, None, parse).value.cls == SubmittedClass(form))
  {
    var row := HomeworkById(db.homework, id);
    if row.None? {
      return NotFound;
    }
    var updated := UpdatedRow(row.value, form, None, parse);
    if updated.None? {
      return ServerError;
    }
    ReplaceHomeworkKeeps(db.homework, updated.value, db.nextHomeworkId);
    db.homework := ReplaceHomework(db.homework, updated.value);
    o := Redirected;
  }

  /** An update whose form leaves out the class wipes the stored class. */
  lemma UpdateWithoutClassEmptiesIt(h: Homework, form: EventForm, parse: string -> Option<Time>)
    requires !Truthy(form.cls) && !Truthy(form.className) && !Truthy(form.dueDate)
    ensures UpdatedRow(h, form, None, parse).Some?
    ensures UpdatedRow(h, form, None, parse).value.cls == ""
  {
  }

  /** The delete: 404, or the row removed. */
  method DeleteEvent(db: Database, id: int) returns (o: Outcome)
    requires db.Valid()
    modifies db
    ensures db.Valid()
    ensures db.users == old(db.users) && db.completions == old(db.completions)
    ensures db.comments == old(db.comments) && db.notifications == old(db.notifications)
    ensures HomeworkById(old(db.homework), id).None? ==> o == NotFound && db.homework == old(db.homework)
    ensures HomeworkById(old(db.homework), id).Some? ==>
              o == Redirected && forall h :: h in db.homework <==> h in old(db.homework) && h.id != id
  {
    if HomeworkById(db.homework, id).None? {
      return NotFound;
    }
    WithoutHomeworkKeepsKeys(db.homework, id, db.nextHomeworkId);
    WithoutHomeworkRemovesKey(db.homework, id, db.nextHomeworkId);
    db.homework := WithoutHomework(db.homework, id);
    o := Redirected;
  }

  /** The export: 404, or the same payload as the controller's, for anyone. */
  function ExportIcal(hs: seq<Homework>, id: int, now: Time, compact: Time -> string): (r: (Outcome, Option<string>))
    ensures r.0 == NotFound <==> HomeworkById(hs, id).None?
    ensures r.0 != NotFound ==> r.0 == Rendered && r.1 == Some(ICal.Ics(HomeworkById(hs, id).value, now, compact))
  {
    match HomeworkById(hs, id)
    case None => (NotFound, None)
    case Some(h) => (Rendered, Some(ICal.Ics(h, now, compact)))
  }

  /** `parseInt(req.query.month) >= 0 ? … : now.getMonth()`: the 0-based
      month, the current one when the query has none or a negative one. */
  function MonthIndex(monthQuery: Option<int>, today: CivilDate): int {
    if monthQuery.Some? && monthQuery.value >= 0 then monthQuery.value else today.month - 1
  }

  /** The agenda: every row of the month, whoever asks; today's day number
      is passed whatever month is shown; the links are the months on either
      side of the one shown. */
  method ShowAgenda(hs: seq<Homework>, today: CivilDate, yearQuery: Option<int>, monthQuery: Option<int>)
    returns (page: AgendaPage)
    ensures var year := QueryYear(yearQuery, today);
            var ym := Calendar.DateMonth(year, MonthIndex(monthQuery, today));
            var start := Agenda.MonthStart(ym);
            && Calendar.IsGrid(page.view.weeks, Calendar.FirstWeekday(ym), Calendar.DaysInMonth(ym))
            && (forall d :: d in page.view.eventsByDay <==>
                  exists h :: h in hs && Agenda.InWindow(h, start, Agenda.MonthEnd(ym)) && Agenda.DayOfMonth(h.due.value, start) == d)
            && (forall d :: d in page.view.eventsByDay ==>
                  forall h :: h in page.view.eventsByDay[d] <==>
                    h in hs && Agenda.InWindow(h, start, Agenda.MonthEnd(ym)) && Agenda.DayOfMonth(h.due.value, start) == d)
            && (forall d :: d in page.view.eventsByDay ==> Listing.SortedBy(page.view.eventsByDay[d], false))
            && page.todayDay == Some(today.day)
            && page.year == year
            && page.prev == Calendar.PrevMonthIndexLink(year, MonthIndex(monthQuery, today))
            && Calendar.NextMonth(page.prev) == ym
            && page.next == Calendar.NextMonth(ym)
    ensures 1 <= today.month <= 12 && today.year >= 100 && yearQuery.None? && monthQuery.None? ==>
              Calendar.DateMonth(QueryYear(yearQuery, today), MonthIndex(monthQuery, today))
                == Calendar.YearMonth(today.year, today.month)
  {
    var year := QueryYear(yearQuery, today);
    var monthIndex := MonthIndex(monthQuery, today);
    var ym := Calendar.DateMonth(year, monthIndex);
    var rows := ListAll(hs);
    assert forall h :: h in rows <==> h in hs by {
      forall h ensures h in rows <==> h in hs {
        assert h in rows <==> h in multiset(rows);
        assert h in hs <==> h in multiset(hs);
      }
    }
    var view := Agenda.BuildMonthView(rows, ym);
    Calendar.IndexLinksAreNeighbours(year, monthIndex);
    page := AgendaPage(view, Some(today.day), year,
                       Calendar.PrevMonthIndexLink(year, monthIndex), Calendar.NextMonthIndexLink(year, monthIndex));
  }
}
