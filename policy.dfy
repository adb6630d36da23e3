/** The access rule every per-homework handler applies (show, edit form,
    update, delete, comment, iCalendar export), and the due-date text the
    edit form is turned into. */
module Policy {
  import opened Records

  /** A session user may see and change a homework item when they are an
      admin, when it belongs to their class, or when they created it. */
  predicate CanAccess(u: User, h: Homework) {
    u.isAdmin || h.cls == u.classe || h.creatorId == Some(u.id)
  }

  /** The checks of show, edit form, update, delete and export, in their
      order: a missing row is reported before the session is looked at.
      `noSession` is what the handler answers without a session (a redirect
      to the login page, or a plain 403). None means "go ahead". */
  function Guard(row: Option<Homework>, session: Option<User>, noSession: Outcome): (r: Option<Outcome>)
    ensures row.None? ==> r == Some(NotFound)
    ensures row.Some? && session.None? ==> r == Some(noSession)
    ensures r.None? <==> row.Some? && session.Some? && CanAccess(session.value, row.value)
    ensures row.Some? && session.Some? && !session.value.isAdmin ==>
              (r.None? <==> row.value.cls == session.value.classe || row.value.creatorId == Some(session.value.id))
    ensures r.Some? && row.Some? && session.Some? ==> r == Some(Forbidden)
  {
    if row.None? then Some(NotFound)
    else if session.None? then Some(noSession)
    else if !CanAccess(session.value, row.value) then Some(Forbidden)
    else None
  }

  /** The checks of the comment handler: the session first, then the row. */
  function CommentGuard(row: Option<Homework>, session: Option<User>): (r: Option<Outcome>)
    ensures session.None? ==> r == Some(Forbidden)
    ensures session.Some? && row.None? ==> r == Some(NotFound)
    ensures r.None? <==> row.Some? && session.Some? && CanAccess(session.value, row.value)
  {
    if session.None? then Some(Forbidden)
    else if row.None? then Some(NotFound)
    else if !CanAccess(session.value, row.value) then Some(Forbidden)
    else None
  }

  /** The Date text that `buildDueDate` hands to the Date constructor: none
      without a date, `{date}T{time}:00` with a time, the date alone otherwise. */
  function BuildDueDate(date: Field, time: Field): (r: Option<string>)
    ensures r.None? <==> !Truthy(date)
    ensures r.Some? ==> |r.value| >= |date.value| && r.value[..|date.value|] == date.value
    ensures r.Some? && Truthy(time) ==> r.value[|date.value|..] == "T" + time.value + ":00"
    ensures r.Some? && !Truthy(time) ==> r.value == date.value
  {
    if !Truthy(date) then None
    else if Truthy(time) then Some(date.value + "T" + time.value + ":00")
    else Some(date.value)
  }

  /** The text before the first 'T': the calendar-date part of an ISO 8601 string. */
  function DatePart(s: string): (r: string)
    ensures |r| <= |s| && r == s[..|r|]
    ensures 'T' !in r
    ensures |r| < |s| ==> s[|r|] == 'T'
  {
    if s == [] || s[0] == 'T' then [] else [s[0]] + DatePart(s[1..])
  }

  /** Whichever branch `buildDueDate` takes, the date the user typed is what
      a reader of the text finds before the 'T'. */
  lemma {:induction false} BuildDueDateKeepsDate(date: Field, time: Field)
    requires Truthy(date) && 'T' !in date.value
    ensures BuildDueDate(date, time).Some?
    ensures DatePart(BuildDueDate(date, time).value) == date.value
  {
    var d := date.value;
    var s := BuildDueDate(date, time).value;
    DatePartOfPrefix(d, s[|d|..]);
    assert s == d + s[|d|..];
  }

  lemma {:induction false} DatePartOfPrefix(d: string, rest: string)
    requires 'T' !in d
    requires rest == [] || rest[0] == 'T'
    ensures DatePart(d + rest) == d
  {
    if d != [] {
      assert (d + rest)[1..] == d[1..] + rest;
      DatePartOfPrefix(d[1..], rest);
    } else {
      assert d + rest == rest;
    }
  }
}
