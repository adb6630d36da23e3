/** The automatic clean-up (src/utils/cleanup.mjs): every homework item due
    before midnight of the current day is deleted. */
module Cleanup {
  import opened Records
  import opened Db

  /** `today.setHours(0, 0, 0, 0)`: the start of the current day (server
      time taken as UTC). */
  function Midnight(now: Time): (r: Time)
    ensures r % DayMs == 0
    ensures r <= now < r + DayMs
  {
    (now / DayMs) * DayMs
  }

  /** `due_date < today`. A missing date compares as unknown and is kept. */
  predicate Expired(h: Homework, threshold: Time) {
    h.due.Some? && h.due.value < threshold
  }

  /** The table after `destroy({ where: { due_date < today } })`. */
  function Kept(hs: seq<Homework>, threshold: Time): (r: seq<Homework>)
    ensures |r| <= |hs|
    ensures forall h :: h in r <==> h in hs && !Expired(h, threshold)
  {
    if hs == [] then []
    else (if Expired(hs[0], threshold) then [] else [hs[0]]) + Kept(hs[1..], threshold)
  }

  /** The rows the delete removes, for the count it returns. */
  function Removed(hs: seq<Homework>, threshold: Time): (r: seq<Homework>)
    ensures forall h :: h in r <==> h in hs && Expired(h, threshold)
  {
    if hs == [] then []
    else (if Expired(hs[0], threshold) then [hs[0]] else []) + Removed(hs[1..], threshold)
  }

  /** Every row is either kept or removed: the count is the difference. */
  lemma {:induction false} KeptAndRemoved(hs: seq<Homework>, threshold: Time)
    ensures |Kept(hs, threshold)| + |Removed(hs, threshold)| == |hs|
  {
    if hs != [] {
      KeptAndRemoved(hs[1..], threshold);
    }
  }

  /** A key below every key of the table is below every key it keeps. */
  lemma KeptAbove(hs: seq<Homework>, threshold: Time, x: Homework)
    requires forall k :: 0 <= k < |hs| ==> x.id < hs[k].id
    ensures forall k :: 0 <= k < |Kept(hs, threshold)| ==> x.id < Kept(hs, threshold)[k].id
  {
    var r := Kept(hs, threshold);
    forall k | 0 <= k < |r| ensures x.id < r[k].id {
      assert r[k] in r;
      var j :| 0 <= j < |hs| && hs[j] == r[k];
    }
  }

  /** The clean-up keeps the keys ascending and the rows dated. */
  lemma {:induction false} KeptKeepsKeys(hs: seq<Homework>, threshold: Time, next: int)
    requires HomeworkKeys(hs, next) && HomeworkRows(hs)
    ensures HomeworkKeys(Kept(hs, threshold), next) && HomeworkRows(Kept(hs, threshold))
  {
    if hs != [] {
      DropKeepsKeys(hs, 0, next);
      assert hs[..0] + hs[1..] == hs[1..];
      KeptKeepsKeys(hs[1..], threshold, next);
      var rest := Kept(hs[1..], threshold);
      forall k | 0 <= k < |hs[1..]| ensures hs[0].id < hs[1..][k].id {
        assert hs[1..][k] == hs[k + 1];
      }
      KeptAbove(hs[1..], threshold, hs[0]);
      if Expired(hs[0], threshold) {
        assert Kept(hs, threshold) == rest;
      } else {
        assert Kept(hs, threshold) == [hs[0]] + rest;
        ConsKeepsKeys(hs[0], rest, next);
      }
    }
  }

  /** deleteExpiredHomeworks. `now` is the instant of the run; the result is
      the count it logs, None when it logs nothing. */
  method DeleteExpired(db: Database, now: Time) returns (logged: Option<nat>)
    requires db.Valid()
    modifies db
    ensures db.Valid()
    ensures db.users == old(db.users) && db.completions == old(db.completions)
    ensures db.comments == old(db.comments) && db.notifications == old(db.notifications)
    ensures forall h :: h in db.homework <==> h in old(db.homework) && !Expired(h, Midnight(now))
    ensures db.homework == Kept(old(db.homework), Midnight(now))
    ensures var n := |Removed(old(db.homework), Midnight(now))|;
            logged == (if n > 0 then Some(n) else None)
  {
    var threshold := Midnight(now);
    var removed := Removed(db.homework, threshold);
    KeptAndRemoved(db.homework, threshold);
    KeptKeepsKeys(db.homework, threshold, db.nextHomeworkId);
    db.homework := Kept(db.homework, threshold);
    logged := if |removed| > 0 then Some(|removed|) else None;
  }

  /** Nothing due today or later is deleted: a row due at any instant of the
      current day survives. */
  lemma TodaySurvives(h: Homework, now: Time)
    requires h.due.Some? && now / DayMs <= h.due.value / DayMs
    ensures !Expired(h, Midnight(now))
  {
    var d := h.due.value;
    assert (d / DayMs) * DayMs <= d;
    assert (now / DayMs) * DayMs <= (d / DayMs) * DayMs;
  }

  /** A second run on the same day deletes nothing and logs nothing. */
  lemma {:induction false} SecondRunSameDay(hs: seq<Homework>, now: Time, later: Time)
    requires now / DayMs == later / DayMs
    ensures Kept(Kept(hs, Midnight(now)), Midnight(later)) == Kept(hs, Midnight(now))
    ensures Removed(Kept(hs, Midnight(now)), Midnight(later)) == []
  {
    if hs != [] {
      SecondRunSameDay(hs[1..], now, later);
      var t := Midnight(now);
      assert Midnight(later) == t;
      if !Expired(hs[0], t) {
        assert Kept(hs, t) == [hs[0]] + Kept(hs[1..], t);
        assert Kept(hs, t)[1..] == Kept(hs[1..], t);
        assert Kept(Kept(hs, t), t) == [hs[0]] + Kept(Kept(hs[1..], t), t);
      } else {
        assert Kept(hs, t) == Kept(hs[1..], t);
      }
    }
  }
}
