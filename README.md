# MyAgenda homework tracker — a Dafny model

MyAgenda is a web application in which pupils of a class share their
homework. Each homework item has a title, a subject, a due date and the class
it belongs to. A pupil can:

- see the list and a month agenda of the homework of their class;
- add, edit and delete items;
- comment on an item;
- tick an item off as done;
- export an item as an iCalendar file.

The application notifies pupils in three cases: when an item is added to
their class, when someone comments on an item they created, and, through an
hourly sweep, the day before an item is due. A daily clean-up deletes
homework whose due date has passed. Administrators can see every item and
can manage user accounts.

This project models that logic over an in-memory store, `Db.Database`. The
store is a class whose fields are the five tables (users, homework,
completions, comments, notifications), each a sequence of rows in insertion
order, plus the four auto-increment counters. `Db.Database.Valid` states the
schema's constraints:

- primary keys ascend and stay below their counter;
- the NOT NULL due date is present;
- the completion table has its unique (homeworkId, userId) index.

Each handler is modelled as a method or a function over the store, in one
module per source file:

| module | source |
|---|---|
| `HomeworkController` | controllers/homeworkController.mjs |
| `RouterCopy` | routes/devoirs.mjs |
| `LegacyRouter` | src/routes/devoirs.mjs |
| `Reminders` | src/scripts/create_reminders.mjs |
| `NotificationRoutes` | src/routes/notifications.mjs |
| `Cleanup` | src/utils/cleanup.mjs |
| `AdminRoutes` | src/routes/admin.mjs |

Each handler returns an `Outcome`: rendered, redirected, sent to login,
403, 404, form shown again, 400 or 500. A handler that changes the store
states the whole new store in its postcondition. Separate lemmas prove what
the application promises about those changes.

Shared pieces have their own modules:

- `Policy`: the access rule and the order of the checks.
- `Listing`: the where clause, the sort and the completion join.
- `Completions`: the completion toggle.
- `Calendar`: the Gregorian month arithmetic and the week grid.
- `Agenda`: the month window and the day buckets.
- `ICal`: the iCalendar payload, in the shape of an RFC 5545 object.

`Records` holds the rows of the five tables (src/models), which are value
datatypes.

Times are integers, in milliseconds since the epoch. The server's local time
is taken to be UTC. Today's date is passed in as a `CivilDate`. Three things
that JavaScript's Date computes are passed in as function parameters, and
the model relies only on the facts stated about them:

- `parse`: reading a date string; `None` stands for an Invalid Date;
- `compact`: the compact ISO stamp;
- `timeText`: the `HHhMM` time text.

## Behaviour worth knowing

- **Who may change an item.** Show, update and delete let a caller through
  when they are an admin, belong to the item's class, or created it
  (controllers/homeworkController.mjs:149-151, :229-231, :264-266). So every
  member of the item's class may change or delete it (`Policy.CanAccess`).
- **Update or delete without a session.** The answer is a plain 403
  (controllers/homeworkController.mjs:228, :263). Show redirects to the
  login page instead (controllers/homeworkController.mjs:148).
- **Invalid date on update.** Update has no validation step. A due date that
  does not parse makes `event.update` throw, and the handler answers 500
  (controllers/homeworkController.mjs:240-255).
- **Toggling twice.** A toggle negates an existing completion record, or
  creates one set to true (controllers/homeworkController.mjs:281-297). So
  two toggles give the table back only when a record already existed
  (`Completions.ToggleTwice`). From no record, two toggles leave a record
  saying "not completed" (`Completions.ToggleTwiceFromNothing`).
- **Years 0 to 99 on the agenda.** The Date constructor reads such a year as
  1900 to 1999, so `?year=24` shows the month of 1924 (`Calendar.DateMonth`).

## Model

| member | source | states |
|---|---|---|
| Records.OrElse | src/routes/devoirs.mjs:32 | JavaScript's logical or on two body fields: the result is truthy iff either field is, and it is the first field when that one is truthy |
| Db.FindHomework | controllers/homeworkController.mjs:225-226 | findByPk: a found position holds that key; None iff no row has the key |
| Db.FindUser | src/routes/admin.mjs:24-25 | findByPk on users: a found position holds that key; None iff no row has it |
| Db.FindCompletion | controllers/homeworkController.mjs:281-283 | findOne on (homeworkId, userId): a found position holds the pair; None iff no row has it |
| Db.FindOwnedNotification | src/routes/notifications.mjs:32-37 | findOne on (id, userId): a found position holds both; None iff no row has both |
| Db.HomeworkById | controllers/homeworkController.mjs:225-226 | the row found is in the table and has the key; None iff no row has the key |
| Db.UserById | src/routes/admin.mjs:24-25 | the user found is in the table and has the key; None iff no user has the key |
| Db.HomeworkByOwnId | src/models/devoirs.mjs:3-7 | with ascending primary keys, looking up a row's own key finds that row |
| Db.NewHomeworkRow | src/models/devoirs.mjs:8-36 | an insert succeeds iff title, subject, class and a readable due date are given; the row carries exactly the given fields and the new key |
| Db.WithoutHomeworkKeepsKeys | controllers/homeworkController.mjs:267 | destroying a row keeps the keys ascending and every row dated |
| Db.DropKeepsKeys | controllers/homeworkController.mjs:267 | removing the row at any position keeps the keys ascending and every row dated |
| Db.WithoutHomeworkRemovesKey | controllers/homeworkController.mjs:267 | after destroy, a row is in the table iff it was there and has a different key |
| Db.ReplaceHomeworkKeeps | controllers/homeworkController.mjs:242-249 | update in place keeps the table valid; the key then holds the new row, and every other row stays |
| Db.AppendNotifications | src/models/notification.mjs:3-7 | inserting rows with keys from the counter onwards keeps the notification keys ascending |
| Db.Database.constructor | databases/db.mjs:29-33 | an empty store over a given user table satisfies the schema constraints |
| Policy.Guard | controllers/homeworkController.mjs:146-151 | 404 for a missing row before the session is looked at; then the no-session answer; go-ahead iff the access rule admits the caller; for a non-admin that means same class or creator |
| Policy.CommentGuard | controllers/homeworkController.mjs:160-182 | the comment handler's order: 403 without a session first, then 404, then the access rule; go-ahead iff the rule admits |
| Policy.BuildDueDate | controllers/homeworkController.mjs:5-9 | no text without a date; `{date}T{time}:00` with a time; the date alone otherwise |
| Policy.BuildDueDateKeepsDate | controllers/homeworkController.mjs:5-9 | whichever branch is taken, the text before the first 'T' is the date typed |
| Completions.FlagAt | src/models/homework_completion.mjs:29-34 | under the unique index, the record of a pair is the one the lookup finds, and the flag is read from it |
| Completions.Toggled | controllers/homeworkController.mjs:281-297 | a pair without a record gets one with completed = true, and true is answered; otherwise the table keeps its length |
| Completions.ToggleFlips | controllers/homeworkController.mjs:285-297 | the answer is the negation of the previous flag and is the flag from then on; the index stays unique; no other pair's flag changes |
| Completions.ToggleTwice | controllers/homeworkController.mjs:287-289 | two toggles of a pair that has a record give the table back |
| Completions.ToggleTwiceFromNothing | controllers/homeworkController.mjs:290-297 | from no record, two toggles leave one record with completed = false, and the flag reads false again |
| Completions.ToggleKeepsKeys | src/models/homework_completion.mjs:3-7 | the toggle keeps completion keys ascending under the advanced counter |
| Listing.ListIsAccessRule | controllers/homeworkController.mjs:19-33 | without a subject filter, the where clause is exactly the access rule |
| Listing.Select | controllers/homeworkController.mjs:19-33 | the selected rows are exactly the table's rows matching the where clause (admin: subject only; others: class or creator, and subject) |
| Listing.SortByDue | controllers/homeworkController.mjs:37-41 | ORDER BY due_date: the result is sorted in the requested direction and is a permutation of its input |
| Listing.QueryContents | controllers/homeworkController.mjs:19-41 | the list holds exactly the matching rows, as many as were selected, sorted descending only for `sort=desc` |
| Listing.CallerCompletions | controllers/homeworkController.mjs:43-48 | the second query returns exactly the caller's completions of the listed ids, at most one per homework |
| Listing.CompletionMap | controllers/homeworkController.mjs:50-53 | the forEach loop maps each of the caller's completions' homework id to its flag, and holds no other key |
| Listing.MapGivesFlags | controllers/homeworkController.mjs:50-57 | the map lookup with its false fallback gives, for every listed id, the caller's stored flag, or false without a record |
| Listing.IdsOf | controllers/homeworkController.mjs:45 | the listed ids, position by position |
| Listing.Flag | controllers/homeworkController.mjs:56 | one row's flag is the caller's stored completion flag, false without a record |
| Listing.Annotate | controllers/homeworkController.mjs:50-57 | each listed row, in order, carries the caller's completion flag |
| Calendar.DaysInMonth | controllers/homeworkController.mjs:372 | 28 to 31 days; 29 iff February of a leap year |
| Calendar.LeapByEra | controllers/homeworkController.mjs:372 | the leap rule depends only on the year's place in its 400-year era |
| Calendar.MarchYearLength | controllers/homeworkController.mjs:371-372 | a March-based year has 366 days iff its February is a leap one |
| Calendar.MonthOffsetStep | controllers/homeworkController.mjs:371-372 | the month-offset formula gives 30 or 31 days to each month from March to January |
| Calendar.MonthLength | controllers/homeworkController.mjs:371-372 | the 1st of the next month is DaysInMonth days after the 1st of this one |
| Calendar.FirstWeekday | controllers/homeworkController.mjs:371 | `getDay()` of the 1st is in 0..6 |
| Calendar.NextFirstWeekday | controllers/homeworkController.mjs:371-372 | the next month starts on the weekday after this month's last day |
| Calendar.Normalize | controllers/homeworkController.mjs:348 | the Date constructor carries an out-of-range month index into the year: same running month number, month in 1..12 |
| Calendar.FullYear | controllers/homeworkController.mjs:348 | the Date constructor reads a year of 0 to 99 as 1900 to 1999 and any other year as it is |
| Calendar.DateMonth | controllers/homeworkController.mjs:348-349 | `new Date(year, index, …)` lands in a valid month whose running month number is that of the read year plus the index; a year from 100 with an index in range gives that very month |
| Calendar.Slot | controllers/homeworkController.mjs:373-386 | a slot shows a day of the month or nothing |
| Calendar.BuildWeeks | controllers/homeworkController.mjs:373-386 | the week loops build the grid: as many 7-slot rows as needed, slot k shows day k - firstDay + 1 when that is a day of the month |
| Calendar.DayPlacement | controllers/homeworkController.mjs:373-386 | every day of the month appears once, at row (firstDay + d - 1) / 7 and column (firstDay + d - 1) % 7 |
| Calendar.PaddingIsEmpty | controllers/homeworkController.mjs:374-386 | slots before firstDay and after the last day are null; the last row holds the last day |
| Calendar.PrevMonthLink | controllers/homeworkController.mjs:397-399 | previous of January is December of the year before; otherwise month - 1 |
| Calendar.NextMonthLink | controllers/homeworkController.mjs:398-400 | next of December is January of the year after; otherwise month + 1 |
| Calendar.NavigationLinks | controllers/homeworkController.mjs:397-400 | the two links step one month back and forth and undo each other |
| Calendar.PrevMonthIndexLink | src/routes/devoirs.mjs:197 | the older router's previous month: December of the year before for index 0, otherwise the month before, in the year the Date constructor reads |
| Calendar.NextMonthIndexLink | src/routes/devoirs.mjs:198 | the older router's next month: January of the year after for index 11, otherwise the month after, in the year the Date constructor reads |
| Calendar.IndexLinksAreNeighbours | src/routes/devoirs.mjs:197-209 | for any month index, the links are the months just before and after the one displayed |
| Agenda.MonthEnd | controllers/homeworkController.mjs:348-349 | 23:59:59 on the last day lies after the month's start and before the next month's start |
| Agenda.InMonth | controllers/homeworkController.mjs:366-369 | the JS filter keeps exactly the dated rows between the two bounds, inclusive |
| Agenda.DayOfMonthInRange | controllers/homeworkController.mjs:388-394 | `getUTCDate()` of an instant in the window is a day of the month, the calendar date the instant falls on |
| Agenda.OnDay | controllers/homeworkController.mjs:388-394 | a day's bucket holds exactly the rows falling on that day |
| Agenda.BucketByDay | controllers/homeworkController.mjs:388-394 | the forEach loop builds a map whose keys are exactly the days with rows, each mapped to its rows in fetch order |
| Agenda.BuildMonthView | controllers/homeworkController.mjs:366-394 | the grid of the month; a day has a bucket iff some fetched row of the window falls on it; the bucket holds exactly those rows; rows fetched by ascending due date stay ascending in each bucket |
| Agenda.InMonthAscending | controllers/homeworkController.mjs:366-369 | the window filter keeps rows fetched by ascending due date in that order |
| Agenda.OnDayAscending | controllers/homeworkController.mjs:388-394 | each day's bucket keeps the fetched ascending due order |
| Agenda.BucketsAreDaysOfMonth | controllers/homeworkController.mjs:388-394 | a bucketed row was fetched and is in the window; its bucket is a day of the month, the date its due instant falls on |
| ICal.Decimal | controllers/homeworkController.mjs:324 | the id in the UID line is a non-empty string of digits |
| ICal.DecimalReadsBack | controllers/homeworkController.mjs:324 | the UID's digits read back as the row's id |
| ICal.EscapeNewlines | controllers/homeworkController.mjs:329 | the escaped description holds no line feed; text without one is unchanged |
| ICal.EscapeOneChar | controllers/homeworkController.mjs:329 | a line feed becomes backslash and 'n'; any other character is kept |
| ICal.EscapeAppend | controllers/homeworkController.mjs:329 | the global replace works character by character: the escape of a concatenation is the concatenation of the escapes, so with EscapeOneChar it fixes every result |
| ICal.EscapeNotInjective | controllers/homeworkController.mjs:329 | a typed backslash-n and a real line break escape to the same text |
| ICal.SplitJoin | controllers/homeworkController.mjs:319-333 | lines without a carriage return, joined by CRLF and cut at each CRLF, come back as they were |
| ICal.IcsLines | controllers/homeworkController.mjs:316-333 | the payload has thirteen lines |
| ICal.IcsShape | controllers/homeworkController.mjs:316-333 | VCALENDAR and VEVENT brackets in place; DTEND equals DTSTART; no due date gives two empty lines; the UID line carries the row's decimal id; DTSTAMP is the export instant; SUMMARY is the title; the DESCRIPTION line is the escaped description and holds no line feed; URL is the attachment or empty |
| ICal.IcsReadsBack | controllers/homeworkController.mjs:319-333 | when no field holds a carriage return, a reader cutting at CRLF finds exactly the thirteen lines in order |
| HomeworkController.TextOr | controllers/homeworkController.mjs:61-62 | the echoed query value: the value when it is present and non-empty, the default otherwise |
| HomeworkController.ListEvents | controllers/homeworkController.mjs:11-63 | to login without a session; otherwise the query's rows, in order, each with the caller's completion flag, and the echoed subject and sort |
| HomeworkController.CreatedClass | controllers/homeworkController.mjs:85-90 | a non-admin's own class whatever was submitted; the submitted class for an admin or without a session |
| HomeworkController.CreatedRow | controllers/homeworkController.mjs:84-100 | the insert succeeds iff title, subject, a readable due date and a class are there; a non-admin's row gets their class; creatorId is the session user or none |
| HomeworkController.Recipients | controllers/homeworkController.mjs:104-109 | exactly the users of the class other than the creator |
| HomeworkController.RecipientsKeepKeys | controllers/homeworkController.mjs:104-109 | the recipients come in ascending key order, as the users table does |
| HomeworkController.Notices | controllers/homeworkController.mjs:111-120 | one unread new_homework row per recipient, about the new item, numbered on from the counter |
| HomeworkController.FanOutReachesClass | controllers/homeworkController.mjs:102-121 | a user is notified iff in the item's class and not its creator, each at most once; every row is unread, of kind new_homework, with the "Nouveau devoir" message and fresh keys |
| HomeworkController.FanOutReachesMember | controllers/homeworkController.mjs:104-120 | every user of the item's class other than the creator gets a notification |
| HomeworkController.FanOutOnlyMembers | controllers/homeworkController.mjs:104-120 | a notified user is of the item's class and is not the creator |
| HomeworkController.FanOutRows | controllers/homeworkController.mjs:112-118 | the rows follow recipient key order; each is an unread new_homework notice about the item with the "Nouveau devoir" message, keyed on from the counter |
| HomeworkController.CreateEvent | controllers/homeworkController.mjs:75-132 | form again and nothing written on a validation failure or a refused insert; otherwise one row added and the fan-out appended, or nothing appended when it fails |
| HomeworkController.NotifyClass | controllers/homeworkController.mjs:102-125 | the bulk insert appends exactly the fan-out and changes nothing else |
| HomeworkController.CommentsOf | controllers/homeworkController.mjs:136-145 | the included comments are exactly the item's comments |
| HomeworkController.ShowEvent | controllers/homeworkController.mjs:134-157 | 404, then to login, then 403 for a logged-in caller the access rule refuses; the row and its comments are shown iff the access rule admits the caller |
| HomeworkController.ShowEditForm | controllers/homeworkController.mjs:207-221 | 404, then to login, then 403 for a logged-in caller the access rule refuses; the row is shown iff the access rule admits the caller |
| HomeworkController.CommentNotice | controllers/homeworkController.mjs:190-198 | the creator is notified iff there is one and it is not the commenter, with the "a commenté votre devoir" message |
| HomeworkController.PostComment | controllers/homeworkController.mjs:159-205 | 403 without a session; blank or invalid content writes nothing; then 404 and 403; otherwise one comment and the creator's notice are appended |
| HomeworkController.AddComment | controllers/homeworkController.mjs:184-198 | the comment is appended under the next key, then the creator's notice when the commenter is someone else; nothing else changes |
| HomeworkController.SubmittedClass | controllers/homeworkController.mjs:234 | the class typed in the form: `class` when non-empty, else `className` when non-empty, else the empty string |
| HomeworkController.UpdatedRow | controllers/homeworkController.mjs:233-249 | the key and creator are kept; the due date is kept without a submitted date, else rebuilt from date and time; the class is forced or submitted; absent fields are kept; None iff the rebuilt date is not a date |
| HomeworkController.ClassOverride | controllers/homeworkController.mjs:236-238 | a class is forced on a caller iff they are not an admin, and it is their own |
| HomeworkController.UpdateEvent | controllers/homeworkController.mjs:223-256 | 404 before the session, 403 without a session or access (checked on the stored row), 500 for an unreadable date; the row is replaced iff every check passes, otherwise nothing changes |
| HomeworkController.DeleteEvent | controllers/homeworkController.mjs:258-272 | 404, then 403 without a session, then 403 when the access rule refuses; the row is removed iff the caller has access, otherwise nothing changes |
| HomeworkController.ToggleCompletion | controllers/homeworkController.mjs:274-304 | 403 without a session; otherwise the toggle, with no access or existence check, and the new flag in the answer |
| HomeworkController.ExportIcal | controllers/homeworkController.mjs:306-341 | 404, then to login, then 403 for a logged-in caller the access rule refuses; the payload of the row iff the access rule admits the caller |
| HomeworkController.ShowAgenda | controllers/homeworkController.mjs:343-417 | to login without a session; otherwise the grid of the month the Date constructor lands on; a day has a bucket iff an accessible row is due on it within the window, the bucket holds exactly those rows by ascending due date; todayDay only for the current month; the prev/next links |
| HomeworkController.AccessibleMonthView | controllers/homeworkController.mjs:356-394 | the rows the caller may access, fetched by ascending due date, give the month's grid and key-exact, content-exact, ordered day buckets |
| HomeworkController.AccessibleBuckets | controllers/homeworkController.mjs:356-394 | buckets built from the fetched rows are, key for key and row for row, those of the accessible rows of the table |
| RouterCopy.CreateEvent | routes/devoirs.mjs:86-143 | the form again, with nothing written, unless title, subject, due date and class are all given; otherwise the controller's create |
| RouterCopy.ClassRequiredEvenWhenOverridden | routes/devoirs.mjs:90-99 | a non-admin's form without a class is refused here, though the class would have been overridden with theirs |
| RouterCopy.PostComment | routes/devoirs.mjs:172-214 | 403 without a session; blank content redirects; then 404 for a missing row and 403 when the access rule refuses; nothing is written unless the row exists and the caller has access, and then the comment and the creator's notice are appended; the answer is a redirect iff the content is blank or the comment is written |
| RouterCopy.NotFoundBeforeLogin | routes/devoirs.mjs:158-173 | without a row and without a session, show/edit/update/delete/export answer 404, and comment answers 403 |
| LegacyRouter.ListAll | src/routes/devoirs.mjs:14-21 | the index is every row, ascending by due date |
| LegacyRouter.LegacyRow | src/routes/devoirs.mjs:31-44 | the insert succeeds iff a subject is given and the rebuilt date is readable; no creator; the class typed in the form |
| LegacyRouter.CreateEvent | src/routes/devoirs.mjs:29-50 | 400 and nothing written without title, due date and class; 500 when the insert is refused; otherwise the row appended and nobody notified |
| LegacyRouter.MissingSubjectIsServerError | src/routes/devoirs.mjs:33-48 | a form passing the required-field check without a subject is refused by the insert |
| LegacyRouter.ShowEvent | src/routes/devoirs.mjs:53-72 | 404 iff no row has the key; otherwise that row, for any caller |
| LegacyRouter.UpdateEvent | src/routes/devoirs.mjs:75-98 | 404, 500 for an unreadable date, otherwise the row replaced with the submitted class and no override, for any caller |
| LegacyRouter.UpdateWithoutClassEmptiesIt | src/routes/devoirs.mjs:81-90 | an update form without a class empties the stored class |
| LegacyRouter.DeleteEvent | src/routes/devoirs.mjs:101-110 | 404, or exactly that row removed, for any caller |
| LegacyRouter.ExportIcal | src/routes/devoirs.mjs:113-143 | 404, or the same payload as the controller's, for any caller |
| LegacyRouter.ShowAgenda | src/routes/devoirs.mjs:146-215 | the 0-based month (current month when missing or negative) in the year the Date constructor reads; the grid; a day has a bucket iff some row is due on it within the window, the bucket holds exactly those rows by ascending due date; todayDay always set; the links are the neighbouring months |
| Reminders.DueSoonRows | src/scripts/create_reminders.mjs:8-19 | exactly the rows with now < due <= now + 24h |
| Reminders.ClassMembers | src/scripts/create_reminders.mjs:25-29 | exactly the users of the class, the creator included |
| Reminders.DueSoonIsTodayOrTomorrow | src/scripts/create_reminders.mjs:45-49 | a row due within 24 hours falls today or tomorrow, so "demain" names the next calendar day |
| Reminders.ExtendsByOne | src/scripts/create_reminders.mjs:41-57 | appending the reminder of an eligible pair that has none keeps the sweep's invariant |
| Reminders.AddReminder | src/scripts/create_reminders.mjs:42-57 | one row appended: kind reminder, unread, the pair's ids and the message; older rows untouched |
| Reminders.RemindOne | src/scripts/create_reminders.mjs:33-59 | check then create: afterwards the pair has a reminder, and nothing is added if it had one |
| Reminders.RemindUsers | src/scripts/create_reminders.mjs:31-60 | after the inner loop every listed user has a reminder about the item; nothing is added if all had one |
| Reminders.RemindClass | src/scripts/create_reminders.mjs:23-61 | every user of the item's class ends up reminded |
| Reminders.CreateReminders | src/scripts/create_reminders.mjs:6-67 | existing rows are kept; each added row is the first reminder of an eligible pair, and no pair gets two; every eligible pair ends up reminded; nothing is added when all already were |
| Reminders.RemindedUpToNext | src/scripts/create_reminders.mjs:22-62 | after one more item of the outer loop, every item so far has its class reminded, since appended rows lose no reminder |
| Reminders.RemindedAll | src/scripts/create_reminders.mjs:12-62 | once every due-soon item is done, every eligible pair has a reminder |
| Reminders.SweepTwice | src/scripts/create_reminders.mjs:6-67 | a second sweep at the same instant adds nothing |
| NotificationRoutes.Mine | src/routes/notifications.mjs:11-13 | exactly the caller's rows |
| NotificationRoutes.MineAscends | src/routes/notifications.mjs:11-15 | the caller's rows keep the key order |
| NotificationRoutes.CountUnread | src/routes/notifications.mjs:18 | the page's unread count is at most its length |
| NotificationRoutes.LatestIsNewestFifty | src/routes/notifications.mjs:11-16 | at most fifty of the caller's rows, newest first; any row left out is older than every row shown, and then the page is full |
| NotificationRoutes.LatestDescends | src/routes/notifications.mjs:13-14 | the page's keys strictly descend |
| NotificationRoutes.LatestOmitsOlder | src/routes/notifications.mjs:13-14 | a row of the caller's left off the page means the page is full and every row on it is newer |
| NotificationRoutes.ListNotifications | src/routes/notifications.mjs:7-25 | to login without a session; otherwise the latest page, and the count is the number of its unread rows, at most the caller's badge count |
| NotificationRoutes.PageCountWithinBadge | src/routes/notifications.mjs:11-18 | the page's unread count never exceeds the badge's, and equals it while the caller has at most fifty rows |
| NotificationRoutes.MarkOne | src/routes/notifications.mjs:32-40 | only the row with that key and owner becomes read |
| NotificationRoutes.MarkRead | src/routes/notifications.mjs:28-49 | 403 without a session, 404 when the caller owns no row with the key, otherwise that row marked read |
| NotificationRoutes.MarkOneIdempotent | src/routes/notifications.mjs:40 | marking twice is marking once |
| NotificationRoutes.MarkOneOthers | src/routes/notifications.mjs:32-40 | other users' unread counts do not move |
| NotificationRoutes.MarkOneOwn | src/routes/notifications.mjs:32-40 | the caller's unread count drops by one if the row was unread, and stays put if not, or if the caller owns no such row |
| NotificationRoutes.UnreadOfMarked | src/routes/notifications.mjs:40 | setting one row's read flag lowers its owner's unread count by one when it was unread, and no other count |
| NotificationRoutes.MarkOneAbsent | src/routes/notifications.mjs:39-44 | a key the caller does not own changes nothing |
| NotificationRoutes.MarkAll | src/routes/notifications.mjs:56-59 | every unread row of the caller becomes read; others unchanged |
| NotificationRoutes.MarkAllRead | src/routes/notifications.mjs:52-65 | 403 without a session; otherwise all the caller's rows marked read |
| NotificationRoutes.MarkAllClears | src/routes/notifications.mjs:56-59 | the caller's unread count becomes 0, other users' counts are unchanged, and a second run changes nothing |
| NotificationRoutes.UnreadCount | src/routes/notifications.mjs:68-83 | 0 without a session; otherwise the number of the caller's unread rows, the same as filtering the caller's rows for unread ones; never more than the table's size |
| NotificationRoutes.UnreadBound | src/routes/notifications.mjs:72-77 | the count of unread rows is at most the number of the caller's rows |
| Cleanup.Midnight | src/utils/cleanup.mjs:6-7 | `setHours(0, 0, 0, 0)`: the start of the day that holds now |
| Cleanup.Kept | src/utils/cleanup.mjs:9-15 | the rows kept are exactly those not due before the threshold |
| Cleanup.Removed | src/utils/cleanup.mjs:9-15 | the rows removed are exactly those due before the threshold |
| Cleanup.KeptAndRemoved | src/utils/cleanup.mjs:9-19 | kept and removed rows add up to the table, so the count is the number deleted |
| Cleanup.KeptKeepsKeys | src/utils/cleanup.mjs:9-15 | the clean-up keeps the table valid |
| Cleanup.DeleteExpired | src/utils/cleanup.mjs:4-23 | the homework table becomes the kept rows, and no other table changes; the count is logged iff it is positive |
| Cleanup.TodaySurvives | src/utils/cleanup.mjs:12 | a row due at any instant of today or later is kept |
| Cleanup.SecondRunSameDay | src/utils/cleanup.mjs:9-15 | a second run on the same day deletes nothing and logs nothing |
| AdminRoutes.ListUsers | src/routes/admin.mjs:6-17 | the user table iff the caller is an admin, 403 otherwise |
| AdminRoutes.WithoutUserRemovesKey | src/routes/admin.mjs:32 | destroy removes exactly the row with that key and keeps the keys ascending |
| AdminRoutes.FlipAdmin | src/routes/admin.mjs:53 | only the row with the key has its flag negated |
| AdminRoutes.FlipAdminTwice | src/routes/admin.mjs:53 | two flips give the table back |
| AdminRoutes.FlipAdminKeys | src/routes/admin.mjs:53 | the flip changes no key |
| AdminRoutes.FlipAdminTarget | src/routes/admin.mjs:53 | the target's row afterwards is the old one with the flag negated |
| AdminRoutes.FlipAdminOthers | src/routes/admin.mjs:53 | every other user's row stays in the table |
| AdminRoutes.DeleteUser | src/routes/admin.mjs:19-38 | 403 for a non-admin, 404 for an unknown key, 400 for one's own key; otherwise exactly that user removed; the acting admin always stays |
| AdminRoutes.ToggleAdmin | src/routes/admin.mjs:40-59 | the same checks; otherwise only the target's flag flipped; the acting admin always stays |

## Left out

- Login and registration (src/routes/auth.mjs) are not part of this model. They rely on bcrypt, a foreign crypto call. The session is a parameter: the user snapshot taken at login, or none.
- The session's admin flag is that snapshot. A user demoted after logging in keeps admin rights until they log in again, and the model reads the flag from the session as the code does.
- Express wiring, CSRF, method override and the timers that run the sweeps (app.mjs, src/app.mjs) are left out. One sweep invocation is modelled, not its scheduling.
- The Sequelize connection, `sync` and the associations (databases/db.mjs, src/databases/db.mjs) become in-memory tables.
- Foreign keys are not enforced. Deleting a user or a homework item leaves its dependent rows (completions, comments, notifications) in place in the model.
- src/models/devoir.js and tests/homework.test.js are not part of this model. The first imports a module that is not shown; the second mocks the controller.
- The users model file is not part of this model. `User` carries only the fields the handlers read.
- JavaScript Date behaviour is left out: string parsing, `toISOString`, `toLocaleString` (the month name), `toLocaleTimeString` and time zones. These are parameters, or the server zone is taken as UTC.
- `parseInt` is left out. Query numbers arrive already read, and a missing or NaN value is `None`.
- Rendering, headers, JSON bodies and status texts are left out; each answer is reduced to its `Outcome`.
- The express-validator rules of the controller's create and comment handlers are not in the shown files. Their verdict is a boolean parameter.
- The new-form pages (`showNewForm`, `/events/new`) only render. The seed routes (`seedData`, `/seed`) depend on the environment and the clock. All four are left out.
- Database and runtime failures are left out. Handlers do not model the 500s they answer on such errors. The exceptions are the refused inserts and updates, and the swallowed fan-out failure (`fanOutFails`).
- HomeworkController.ShowEvent: the comments of an item are given in table order. The ORM's `createdAt` ordering and the commenters' usernames are not modelled.
- NotificationRoutes.LatestOf: `createdAt DESC` is taken as descending key order. Rows of one bulk insert may share a `createdAt`, and their relative order in the database is not pinned down.
- HomeworkController.NotifyClass: the bulk insert is taken as all-or-nothing.
- Reminders.CreateReminders: a failure part-way through the sweep is swallowed by the script and leaves the rows added so far. The model covers only a sweep that runs to the end.
- Concurrency is left out. This includes two sweeps or requests interleaving, and the check-then-create race that can give a pair two reminders.
- HomeworkController.ToggleCompletion: the completion counter advances on every toggle, even one that updates in place. Key values are not observable, so this costs nothing.
- Column defaults are left out (`completed` and `read` default to false). Every insert in the code names the value.
- HomeworkController.ShowAgenda: a month query that `parseInt` cannot read (`?month=abc`) gives NaN in the code: an Invalid Date window, no rows, one week of empty days and NaN links. The model reads such a query as absent and shows the current month.
- HomeworkController.ShowAgenda and LegacyRouter.ShowAgenda: the range of JavaScript dates is not modelled. When the month asked for lies more than 8.64e15 ms from the epoch (`?year=300000`, say), the Date constructor gives an Invalid Date (controllers/homeworkController.mjs:348-349, src/routes/devoirs.mjs:151-152). The code then keeps no row, builds one week of empty days, and its month count is NaN. The model's unbounded day arithmetic shows the full grid and that month's rows.
- LegacyRouter.ShowAgenda: the query's `where: { due_date: {} }` (src/routes/devoirs.mjs:154-161) is read as "every row", as the comment beside it says. What the ORM makes of an empty operator object on a date column is outside this model.
- Listing.SortByDue: rows with equal due dates come out in one fixed order (their table order). `ORDER BY due_date` does not pin that order down; the contract promises only that the result is sorted and a permutation.
- Path ids that are not numbers are left out. An id is an integer in the model.
- Console logging is left out. The clean-up's log is the count it returns.
