/** The homework list (listEvents in controllers/homeworkController.mjs and
    its copy in routes/devoirs.mjs): the where clause, the ORDER BY on the due
    date, and the in-memory join that marks each row with the caller's
    completion flag. */
module Listing {
  import opened Records
  import opened Db
  import opened Completions
  import Policy

  /** The where clause: an admin is filtered by subject only; anyone else by
      `(class = classe OR creatorId = id) AND subject`, the subject part only
      when a non-empty subject was asked for. */
  predicate Matches(u: User, subject: Field, h: Homework) {
    (u.isAdmin || h.cls == u.classe || h.creatorId == Some(u.id))
    && (!Truthy(subject) || h.subject == subject.value)
  }

  /** Without a subject filter the list shows exactly what the access rule allows. */
  lemma ListIsAccessRule(u: User, h: Homework)
    ensures Matches(u, None, h) <==> Policy.CanAccess(u, h)
  {
  }

  /** The rows the where clause selects, in table order. */
  function Select(hs: seq<Homework>, u: User, subject: Field): (r: seq<Homework>)
    ensures |r| <= |hs|
    ensures forall h :: h in r <==> h in hs && Matches(u, subject, h)
  {
    if hs == [] then []
    else (if Matches(u, subject, hs[0]) then [hs[0]] else []) + Select(hs[1..], u, subject)
  }

  // ---------------------------------------------------------------------
  // ORDER BY due_date ASC or DESC. Rows without a due date sort as larger
  // than every date (NULLS LAST when ascending, first when descending).

  predicate DueLe(a: Option<Time>, b: Option<Time>) {
    if a.None? then b.None? else b.None? || a.value <= b.value
  }

  predicate InOrder(a: Homework, b: Homework, desc: bool) {
    if desc then DueLe(b.due, a.due) else DueLe(a.due, b.due)
  }

  ghost predicate SortedBy(s: seq<Homework>, desc: bool) {
    forall i, j :: 0 <= i < j < |s| ==> InOrder(s[i], s[j], desc)
  }

  /** `sort === 'desc'`: anything else, or nothing, sorts ascending. */
  function IsDescending(sort: Field): bool {
    sort == Some("desc")
  }

  /** Any two rows are ordered one way or the other. */
  lemma InOrderTotal(a: Homework, b: Homework, desc: bool)
    ensures InOrder(a, b, desc) || InOrder(b, a, desc)
  {
  }

  function Insert(x: Homework, s: seq<Homework>, desc: bool): (r: seq<Homework>)
    requires SortedBy(s, desc)
    ensures SortedBy(r, desc)
    ensures multiset(r) == multiset(s) + multiset{x}
  {
    if s == [] then [x]
    else if InOrder(x, s[0], desc) then
      assert forall k :: 0 <= k < |s| ==> InOrder(s[0], s[k], desc) || k == 0;
      [x] + s
    else
      var rest := Insert(x, s[1..], desc);
      InsertAfterHead(x, s, rest, desc);
      [s[0]] + rest
  }

  lemma InsertAfterHead(x: Homework, s: seq<Homework>, rest: seq<Homework>, desc: bool)
    requires |s| >= 1 && SortedBy(s, desc) && !InOrder(x, s[0], desc)
    requires SortedBy(rest, desc) && multiset(rest) == multiset(s[1..]) + multiset{x}
    ensures SortedBy([s[0]] + rest, desc)
    ensures multiset([s[0]] + rest) == multiset(s) + multiset{x}
  {
    InOrderTotal(x, s[0], desc);
    forall k | 0 <= k < |rest| ensures InOrder(s[0], rest[k], desc) {
      assert rest[k] in multiset(rest);
      if rest[k] != x {
        assert rest[k] in multiset(s[1..]);
        var j :| 0 <= j < |s[1..]| && s[1..][j] == rest[k];
        assert s[j + 1] == rest[k];
      }
    }
    assert s == [s[0]] + s[1..];
  }

  /** The rows in the order the database returns them. */
  function SortByDue(s: seq<Homework>, desc: bool): (r: seq<Homework>)
    ensures SortedBy(r, desc)
    ensures multiset(r) == multiset(s)
  {
    if s == [] then []
    else
      assert s == [s[0]] + s[1..];
      Insert(s[0], SortByDue(s[1..], desc), desc)
  }

  /** The list query: selected rows, sorted. */
  function Query(hs: seq<Homework>, u: User, subject: Field, sort: Field): seq<Homework> {
    SortByDue(Select(hs, u, subject), IsDescending(sort))
  }

  /** The list holds exactly the matching rows, each as often as in the
      table, in due-date order, descending only for `sort=desc`. */
  lemma QueryContents(hs: seq<Homework>, u: User, subject: Field, sort: Field)
    ensures forall h :: h in Query(hs, u, subject, sort) <==> h in hs && Matches(u, subject, h)
    ensures |Query(hs, u, subject, sort)| == |Select(hs, u, subject)|
    ensures SortedBy(Query(hs, u, subject, sort), sort == Some("desc"))
  {
    var sel := Select(hs, u, subject);
    var q := Query(hs, u, subject, sort);
    assert multiset(q) == multiset(sel);
    assert |q| == |multiset(q)| == |multiset(sel)| == |sel|;
    forall h ensures h in q <==> h in sel {
      assert h in q <==> h in multiset(q);
      assert h in sel <==> h in multiset(sel);
    }
  }

  // ---------------------------------------------------------------------
  // The completion flag of each listed row.

  datatype ListedRow = ListedRow(homework: Homework, isCompleted: bool)

  /** The second query: the caller's completions of the listed homework. */
  function CallerCompletions(cs: seq<Completion>, userId: Id, ids: seq<Id>): (r: seq<Completion>)
    requires OnePerPair(cs)
    ensures forall c :: c in r <==> c in cs && c.userId == userId && c.homeworkId in ids
    ensures forall i, j :: 0 <= i < j < |r| ==> r[i].homeworkId != r[j].homeworkId
  {
    if cs == [] then []
    else
      assert OnePerPair(cs[1..]);
      var rest := CallerCompletions(cs[1..], userId, ids);
      if cs[0].userId == userId && cs[0].homeworkId in ids then
        assert forall c :: c in rest ==> c.homeworkId != cs[0].homeworkId by {
          forall c | c in rest ensures c.homeworkId != cs[0].homeworkId {
            var j :| 0 <= j < |cs[1..]| && cs[1..][j] == c;
            assert cs[j + 1] == c;
          }
        }
        [cs[0]] + rest
      else rest
  }

  /** The first forEach loop: a map from homework id to the caller's flag. */
  method CompletionMap(mine: seq<Completion>) returns (m: map<Id, bool>)
    requires forall i, j :: 0 <= i < j < |mine| ==> mine[i].homeworkId != mine[j].homeworkId
    ensures forall c :: c in mine ==> c.homeworkId in m && m[c.homeworkId] == c.completed
    ensures forall id :: id in m ==> exists c :: c in mine && c.homeworkId == id
  {
    m := map[];
    for k := 0 to |mine|
      invariant forall j :: 0 <= j < k ==> mine[j].homeworkId in m && m[mine[j].homeworkId] == mine[j].completed
      invariant forall id :: id in m ==> exists j :: 0 <= j < k && mine[j].homeworkId == id
    {
      m := m[mine[k].homeworkId := mine[k].completed];
    }
  }

  /** `completionMap[id] || false` is the stored flag of the caller's record. */
  lemma MapGivesFlags(completions: seq<Completion>, userId: Id, ids: seq<Id>, mine: seq<Completion>, m: map<Id, bool>)
    requires OnePerPair(completions) && mine == CallerCompletions(completions, userId, ids)
    requires forall c :: c in mine ==> c.homeworkId in m && m[c.homeworkId] == c.completed
    requires forall id :: id in m ==> exists c :: c in mine && c.homeworkId == id
    ensures forall id :: id in ids ==> (if id in m then m[id] else false) == CompletedFlag(completions, userId, id)
  {
    forall id | id in ids ensures (if id in m then m[id] else false) == CompletedFlag(completions, userId, id) {
      match FindCompletion(completions, id, userId) {
        case None =>
          assert forall c :: c in mine ==> c.homeworkId != id;
        case Some(i) =>
          assert completions[i] in mine;
      }
    }
  }

  /** `events.map(e => e.id)`. */
  function IdsOf(events: seq<Homework>): (ids: seq<Id>)
    ensures |ids| == |events|
    ensures forall i :: 0 <= i < |events| ==> ids[i] == events[i].id
  {
    seq(|events|, i requires 0 <= i < |events| => events[i].id)
  }

  /** The second forEach loop's step: `completionMap[e.id] || false`. */
  method Flag(e: Homework, completionMap: map<Id, bool>, ghost completions: seq<Completion>, userId: Id, ghost ids: seq<Id>)
    returns (row: ListedRow)
    requires e.id in ids
    requires forall id :: id in ids ==> (if id in completionMap then completionMap[id] else false) == CompletedFlag(completions, userId, id)
    ensures row == ListedRow(e, CompletedFlag(completions, userId, e.id))
  {
    var flag := if e.id in completionMap then completionMap[e.id] else false;
    row := ListedRow(e, flag);
  }

  /** The two forEach loops: fill a map from homework id to the caller's flag,
      then give every listed row `completionMap[id] || false`. */
  method Annotate(events: seq<Homework>, completions: seq<Completion>, userId: Id) returns (rows: seq<ListedRow>)
    requires OnePerPair(completions)
    ensures |rows| == |events|
    ensures forall i :: 0 <= i < |rows| ==>
              rows[i].homework == events[i] && rows[i].isCompleted == CompletedFlag(completions, userId, events[i].id)
  {
    var ids := IdsOf(events);
    var mine := CallerCompletions(completions, userId, ids);
    var completionMap := CompletionMap(mine);
    MapGivesFlags(completions, userId, ids, mine, completionMap);
    rows := [];
    for k := 0 to |events|
      invariant |rows| == k
      invariant forall i :: 0 <= i < k ==>
                  rows[i].homework == events[i] && rows[i].isCompleted == CompletedFlag(completions, userId, events[i].id)
    {
      assert ids[k] == events[k].id;
      var row := Flag(events[k], completionMap, completions, userId, ids);
      rows := rows + [row];
    }
  }
}
