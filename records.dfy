/** Rows of the five tables and the values handlers exchange with them
    (the model definitions under src/models), plus the request-level helpers every handler uses. */
module Records {

  datatype Option<+T> = None | Some(value: T)

  /** Auto-increment primary keys start at 1. */
  type Id = i: int | 1 <= i witness 1

  /** An instant, in milliseconds since the epoch. */
  type Time = int

  const SecondMs: int := 1000
  const DayMs: int := 86400000

  /** A calendar date: month is 1-based, as people write it. */
  datatype CivilDate = CivilDate(year: int, month: int, day: int)

  /** A row of the users table; also the snapshot kept in the session at login. */
  datatype User = User(id: Id, username: string, classe: string, isAdmin: bool)

  /** A row of the homework table. `due` is an Option because handlers test it
      (the column itself is NOT NULL, see Db.Database.Valid). */
  datatype Homework = Homework(
    id: Id,
    title: string,
    subject: string,
    due: Option<Time>,
    description: Option<string>,
    attachment: Option<string>,
    cls: string,
    creatorId: Option<Id>)

  datatype Completion = Completion(id: Id, homeworkId: Id, userId: Id, completed: bool)

  datatype Comment = Comment(id: Id, content: string, userId: Id, homeworkId: Id)

  /** The ENUM('reminder', 'new_homework', 'comment') column. */
  datatype NotificationKind = Reminder | NewHomework | CommentPosted

  datatype Notification = Notification(
    id: Id,
    userId: Id,
    homeworkId: Option<Id>,
    kind: NotificationKind,
    message: string,
    read: bool)

  /** What a handler answers, reduced to its kind. */
  datatype Outcome =
    | Rendered      // a page or a JSON body with status 200
    | Redirected    // a redirect after a successful change
    | ToLogin       // redirect to the login page
    | Forbidden     // 403
    | NotFound      // 404
    | FormError     // the form is shown again with an error, nothing written
    | BadRequest    // 400
    | ServerError   // 500

  /** A request body field as JavaScript sees it: absent (undefined) or a string. */
  type Field = Option<string>

  /** JavaScript truthiness of a body field: present and not empty. */
  predicate Truthy(f: Field) {
    f.Some? && f.value != ""
  }

  /** `a || b`, for two body fields. */
  function OrElse(a: Field, b: Field): (r: Field)
    ensures Truthy(r) <==> Truthy(a) || Truthy(b)
    ensures Truthy(a) ==> r == a
  {
    if Truthy(a) then a else b
  }

  /** The characters String.prototype.trim removes: WhiteSpace and LineTerminator
      of ECMAScript (section 12.2 and 12.3 of ECMA-262). */
  predicate IsTrimmed(c: char) {
    c in {'\t', '\n', '\U{000B}', '\U{000C}', '\r', ' ', '\U{00A0}', '\U{1680}',
          '\U{2000}', '\U{2001}', '\U{2002}', '\U{2003}', '\U{2004}', '\U{2005}',
          '\U{2006}', '\U{2007}', '\U{2008}', '\U{2009}', '\U{200A}', '\U{2028}',
          '\U{2029}', '\U{202F}', '\U{205F}', '\U{3000}', '\U{FEFF}'}
  }

  /** `s.trim()` is empty. */
  predicate IsBlank(s: string) {
    forall i :: 0 <= i < |s| ==> IsTrimmed(s[i])
  }

  /** `!content || !content.trim()`. */
  predicate BlankField(f: Field) {
    f.None? || IsBlank(f.value)
  }
}
