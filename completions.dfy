/** The completion tracker: one row per (homework, user) pair holding a
    `completed` flag (src/models/homework_completion.mjs), read by the list
    and flipped by toggleCompletion. */
module Completions {
  import opened Records
  import opened Db

  /** The caller's completion flag for a homework: the stored flag, false
      when there is no record. */
  function CompletedFlag(cs: seq<Completion>, userId: Id, homeworkId: Id): bool {
    match FindCompletion(cs, homeworkId, userId)
    case None => false
    case Some(i) => cs[i].completed
  }

  /** Under the unique index, the record of a pair is wherever it is found. */
  lemma FlagAt(cs: seq<Completion>, userId: Id, homeworkId: Id, i: int)
    requires OnePerPair(cs)
    requires 0 <= i < |cs| && cs[i].homeworkId == homeworkId && cs[i].userId == userId
    ensures FindCompletion(cs, homeworkId, userId) == Some(i)
    ensures CompletedFlag(cs, userId, homeworkId) == cs[i].completed
  {
  }

  /** toggleCompletion on the table: flip the pair's record and return the
      new value, or insert a record with completed = true (the column's
      default of false is never used: the insert names the value). */
  function Toggled(cs: seq<Completion>, homeworkId: Id, userId: Id, nextId: Id): (r: (seq<Completion>, bool))
    ensures FindCompletion(cs, homeworkId, userId).Some? ==> |r.0| == |cs|
    ensures FindCompletion(cs, homeworkId, userId).None? ==>
              r.0 == cs + [Completion(nextId, homeworkId, userId, true)] && r.1
  {
    match FindCompletion(cs, homeworkId, userId)
    case Some(i) => (cs[i := cs[i].(completed := !cs[i].completed)], !cs[i].completed)
    case None => (cs + [Completion(nextId, homeworkId, userId, true)], true)
  }

  /** The answer is the opposite of the flag the list showed, the list shows
      it from now on, and no other pair's flag moves. */
  lemma ToggleFlips(cs: seq<Completion>, homeworkId: Id, userId: Id, nextId: Id)
    requires OnePerPair(cs)
    ensures var (cs', v) := Toggled(cs, homeworkId, userId, nextId);
            && v == !CompletedFlag(cs, userId, homeworkId)
            && CompletedFlag(cs', userId, homeworkId) == v
            && OnePerPair(cs')
            && forall h: Id, u: Id :: (h != homeworkId || u != userId) ==>
                 CompletedFlag(cs', u, h) == CompletedFlag(cs, u, h)
  {
    var (cs', v) := Toggled(cs, homeworkId, userId, nextId);
    match FindCompletion(cs, homeworkId, userId) {
      case Some(i) =>
        assert forall j :: 0 <= j < |cs| ==> cs'[j].homeworkId == cs[j].homeworkId && cs'[j].userId == cs[j].userId;
        FlagAt(cs', userId, homeworkId, i);
        forall h: Id, u: Id | h != homeworkId || u != userId
          ensures CompletedFlag(cs', u, h) == CompletedFlag(cs, u, h)
        {
          match FindCompletion(cs', h, u) {
            case None =>
            case Some(j) => FlagAt(cs, u, h, j);
          }
        }
      case None =>
        FlagAt(cs', userId, homeworkId, |cs|);
        forall h: Id, u: Id | h != homeworkId || u != userId
          ensures CompletedFlag(cs', u, h) == CompletedFlag(cs, u, h)
        {
          match FindCompletion(cs', h, u) {
            case None =>
              assert forall j :: 0 <= j < |cs| ==> cs'[j] == cs[j];
            case Some(j) =>
              assert j < |cs| && cs'[j] == cs[j];
              FlagAt(cs, u, h, j);
          }
        }
    }
  }

  /** Two toggles of a pair that already has a record give the table back. */
  lemma ToggleTwice(cs: seq<Completion>, homeworkId: Id, userId: Id, nextId: Id)
    requires OnePerPair(cs) && FindCompletion(cs, homeworkId, userId).Some?
    ensures Toggled(Toggled(cs, homeworkId, userId, nextId).0, homeworkId, userId, nextId).0 == cs
  {
    var i := FindCompletion(cs, homeworkId, userId).value;
    var cs' := Toggled(cs, homeworkId, userId, nextId).0;
    ToggleFlips(cs, homeworkId, userId, nextId);
    FlagAt(cs', userId, homeworkId, i);
    assert cs'[i := cs'[i].(completed := !cs'[i].completed)] == cs;
  }

  /** From no record, two toggles leave a record saying "not completed":
      the flag the list shows is back to false, the table is not. */
  lemma ToggleTwiceFromNothing(cs: seq<Completion>, homeworkId: Id, userId: Id, nextId: Id)
    requires OnePerPair(cs) && FindCompletion(cs, homeworkId, userId).None?
    ensures var cs2 := Toggled(Toggled(cs, homeworkId, userId, nextId).0, homeworkId, userId, nextId).0;
            cs2 == cs + [Completion(nextId, homeworkId, userId, false)]
            && !CompletedFlag(cs2, userId, homeworkId)
  {
    var cs' := Toggled(cs, homeworkId, userId, nextId).0;
    ToggleFlips(cs, homeworkId, userId, nextId);
    FlagAt(cs', userId, homeworkId, |cs|);
    ToggleFlips(cs', homeworkId, userId, nextId);
  }

  /** Inserting under the counter keeps the primary keys ascending. */
  lemma ToggleKeepsKeys(cs: seq<Completion>, homeworkId: Id, userId: Id, nextId: Id)
    requires CompletionKeys(cs, nextId)
    ensures CompletionKeys(Toggled(cs, homeworkId, userId, nextId).0, nextId + 1)
  {
  }
}
