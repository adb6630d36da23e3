/** The data of the agenda page, beyond the grid: the instants that bound
    the displayed month, the homework that falls inside them, and its
    grouping by day of the month (`eventsByDay`). */
module Agenda {
  import opened Records
  import opened Calendar
  import Listing

  /** `new Date(year, month - 1, 1)`: midnight of the 1st. */
  function MonthStart(ym: YearMonth): Time
    requires ValidMonth(ym)
  {
    DaysFromCivil(ym, 1) * DayMs
  }

  /** `new Date(year, month, 0, 23, 59, 59)`: 23:59:59 on the last day. */
  function MonthEnd(ym: YearMonth): (r: Time)
    requires ValidMonth(ym)
    ensures MonthStart(ym) < r < MonthStart(NextMonth(ym))
  {
    MonthLength(ym);
    MonthStart(ym) + (DaysInMonth(ym) - 1) * DayMs + 86399 * SecondMs
  }

  /** The filter on the fetched rows: dated, and between the two bounds inclusive. */
  predicate InWindow(h: Homework, start: Time, end: Time) {
    h.due.Some? && start <= h.due.value <= end
  }

  function InMonth(hs: seq<Homework>, start: Time, end: Time): (r: seq<Homework>)
    ensures forall h :: h in r <==> h in hs && InWindow(h, start, end)
    ensures forall i :: 0 <= i < |r| ==> r[i].due.Some?
  {
    if hs == [] then []
    else (if InWindow(hs[0], start, end) then [hs[0]] else []) + InMonth(hs[1..], start, end)
  }

  /** `getUTCDate()` of an instant of the month that starts at `start`. */
  function DayOfMonth(t: Time, start: Time): int {
    (t - start) / DayMs + 1
  }

  lemma ShiftByDays(a: int, x: int)
    ensures (a * DayMs + x) / DayMs == a + x / DayMs
  {
    var q := x / DayMs;
    assert x == q * DayMs + x % DayMs;
    assert a * DayMs + x == (a + q) * DayMs + x % DayMs;
  }

  /** Every instant inside the window gets a day of the displayed month, and
      that day is the calendar date the instant falls on. */
  lemma DayOfMonthInRange(ym: YearMonth, t: Time)
    requires ValidMonth(ym) && MonthStart(ym) <= t <= MonthEnd(ym)
    ensures 1 <= DayOfMonth(t, MonthStart(ym)) <= DaysInMonth(ym)
    ensures DaysFromCivil(ym, DayOfMonth(t, MonthStart(ym))) == t / DayMs
  {
    var x := t - MonthStart(ym);
    var q := x / DayMs;
    assert q * DayMs <= x < q * DayMs + DayMs;
    assert x <= (DaysInMonth(ym) - 1) * DayMs + 86399000;
    ShiftByDays(DaysFromCivil(ym, 1), x);
  }

  /** The rows of one day, in the order they were fetched. */
  function OnDay(evs: seq<Homework>, start: Time, d: int): (r: seq<Homework>)
    requires forall i :: 0 <= i < |evs| ==> evs[i].due.Some?
    ensures forall h :: h in r <==> h in evs && DayOfMonth(h.due.value, start) == d
  {
    if evs == [] then []
    else
      var last := evs[|evs| - 1];
      OnDay(evs[..|evs| - 1], start, d) + (if DayOfMonth(last.due.value, start) == d then [last] else [])
  }

  /** The forEach that pushes each row onto the list of its day. */
  method BucketByDay(evs: seq<Homework>, start: Time) returns (byDay: map<int, seq<Homework>>)
    requires forall i :: 0 <= i < |evs| ==> evs[i].due.Some?
    ensures forall d :: d in byDay <==> OnDay(evs, start, d) != []
    ensures forall d :: d in byDay ==> byDay[d] == OnDay(evs, start, d)
  {
    byDay := map[];
    for k := 0 to |evs|
      invariant forall d :: d in byDay <==> OnDay(evs[..k], start, d) != []
      invariant forall d :: d in byDay ==> byDay[d] == OnDay(evs[..k], start, d)
    {
      var ev := evs[k];
      var day := DayOfMonth(ev.due.value, start);
      var list := if day in byDay then byDay[day] else [];
      byDay := byDay[day := list + [ev]];
      assert evs[..k + 1][..k] == evs[..k];
    }
    assert evs[..|evs|] == evs;
  }

  /** A row in front of rows in ascending due order keeps them ascending when
      it comes no later than any of them. */
  lemma ConsAscending(x: Homework, rest: seq<Homework>)
    requires Listing.SortedBy(rest, false)
    requires forall k :: 0 <= k < |rest| ==> Listing.InOrder(x, rest[k], false)
    ensures Listing.SortedBy([x] + rest, false)
  {
    var r := [x] + rest;
    forall i, j | 0 <= i < j < |r| ensures Listing.InOrder(r[i], r[j], false) {
      assert r[j] == rest[j - 1];
      if i > 0 {
        assert r[i] == rest[i - 1];
      }
    }
  }

  /** The same, for a row put after the others. */
  lemma SnocAscending(init: seq<Homework>, x: Homework)
    requires Listing.SortedBy(init, false)
    requires forall k :: 0 <= k < |init| ==> Listing.InOrder(init[k], x, false)
    ensures Listing.SortedBy(init + [x], false)
  {
    var r := init + [x];
    forall i, j | 0 <= i < j < |r| ensures Listing.InOrder(r[i], r[j], false) {
      assert r[i] == init[i];
      if j < |init| {
        assert r[j] == init[j];
      }
    }
  }

  /** The month filter keeps the fetched order: rows fetched by ascending due
      date stay ascending. */
  lemma {:induction false} InMonthAscending(hs: seq<Homework>, start: Time, end: Time)
    requires Listing.SortedBy(hs, false)
    ensures Listing.SortedBy(InMonth(hs, start, end), false)
  {
    if hs != [] {
      var tail := hs[1..];
      forall i, j | 0 <= i < j < |tail| ensures Listing.InOrder(tail[i], tail[j], false) {
        assert tail[i] == hs[i + 1] && tail[j] == hs[j + 1];
      }
      InMonthAscending(tail, start, end);
      var rest := InMonth(tail, start, end);
      if InWindow(hs[0], start, end) {
        forall k | 0 <= k < |rest| ensures Listing.InOrder(hs[0], rest[k], false) {
          assert rest[k] in rest;
          var j :| 0 <= j < |tail| && tail[j] == rest[k];
          assert hs[j + 1] == rest[k];
        }
        assert InMonth(hs, start, end) == [hs[0]] + rest;
        ConsAscending(hs[0], rest);
      } else {
        assert InMonth(hs, start, end) == rest;
      }
    }
  }

  /** A day's bucket keeps the fetched order too. */
  lemma {:induction false} OnDayAscending(evs: seq<Homework>, start: Time, d: int)
    requires forall i :: 0 <= i < |evs| ==> evs[i].due.Some?
    requires Listing.SortedBy(evs, false)
    ensures Listing.SortedBy(OnDay(evs, start, d), false)
  {
    if evs != [] {
      var init := evs[..|evs| - 1];
      var last := evs[|evs| - 1];
      forall i, j | 0 <= i < j < |init| ensures Listing.InOrder(init[i], init[j], false) {
        assert init[i] == evs[i] && init[j] == evs[j];
      }
      OnDayAscending(init, start, d);
      var r := OnDay(init, start, d);
      if DayOfMonth(last.due.value, start) == d {
        forall k | 0 <= k < |r| ensures Listing.InOrder(r[k], last, false) {
          assert r[k] in r;
          var j :| 0 <= j < |init| && init[j] == r[k];
          assert evs[j] == r[k];
        }
        assert OnDay(evs, start, d) == r + [last];
        SnocAscending(r, last);
      } else {
        assert OnDay(evs, start, d) == r;
      }
    }
  }

  /** What the page shows for one month: the grid and the rows of each day. */
  datatype MonthView = MonthView(weeks: seq<seq<Option<int>>>, eventsByDay: map<int, seq<Homework>>)

  /** The grid and the buckets of the month `ym`, from the rows the handler
      fetched: a day has a bucket exactly when some fetched row of the window
      falls on it, the bucket holds exactly those rows, and rows fetched in
      ascending due order stay so within each bucket. */
  method BuildMonthView(rows: seq<Homework>, ym: YearMonth) returns (view: MonthView)
    requires ValidMonth(ym)
    ensures IsGrid(view.weeks, FirstWeekday(ym), DaysInMonth(ym))
    ensures var evs := InMonth(rows, MonthStart(ym), MonthEnd(ym));
            forall d :: (d in view.eventsByDay <==> OnDay(evs, MonthStart(ym), d) != [])
                        && (d in view.eventsByDay ==> view.eventsByDay[d] == OnDay(evs, MonthStart(ym), d))
    ensures var start, end := MonthStart(ym), MonthEnd(ym);
            forall d :: d in view.eventsByDay <==>
              exists h :: h in rows && InWindow(h, start, end) && DayOfMonth(h.due.value, start) == d
    ensures var start, end := MonthStart(ym), MonthEnd(ym);
            forall d, h :: d in view.eventsByDay ==>
              (h in view.eventsByDay[d] <==> h in rows && InWindow(h, start, end) && DayOfMonth(h.due.value, start) == d)
    ensures Listing.SortedBy(rows, false) ==>
              forall d :: d in view.eventsByDay ==> Listing.SortedBy(view.eventsByDay[d], false)
  {
    var start, end := MonthStart(ym), MonthEnd(ym);
    var evs := InMonth(rows, start, end);
    var weeks := BuildWeeks(FirstWeekday(ym), DaysInMonth(ym));
    var byDay := BucketByDay(evs, start);
    view := MonthView(weeks, byDay);
    forall d ensures d in byDay <==> exists h :: h in rows && InWindow(h, start, end) && DayOfMonth(h.due.value, start) == d {
      var b := OnDay(evs, start, d);
      if d in byDay {
        assert b[0] in b;
      }
      if h :| h in rows && InWindow(h, start, end) && DayOfMonth(h.due.value, start) == d {
        assert h in b;
      }
    }
    if Listing.SortedBy(rows, false) {
      InMonthAscending(rows, start, end);
      forall d | d in byDay ensures Listing.SortedBy(byDay[d], false) {
        OnDayAscending(evs, start, d);
      }
    }
  }

  /** Every bucket is a day of the displayed month, and a row sits in the
      bucket of the date its due instant falls on. */
  lemma BucketsAreDaysOfMonth(rows: seq<Homework>, ym: YearMonth, d: int, h: Homework)
    requires ValidMonth(ym)
    requires h in OnDay(InMonth(rows, MonthStart(ym), MonthEnd(ym)), MonthStart(ym), d)
    ensures h in rows && InWindow(h, MonthStart(ym), MonthEnd(ym))
    ensures 1 <= d <= DaysInMonth(ym)
    ensures DaysFromCivil(ym, d) == h.due.value / DayMs
  {
    DayOfMonthInRange(ym, h.due.value);
  }
}
