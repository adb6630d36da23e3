/** Month arithmetic and the month grid of the agenda page
    (controllers/homeworkController.mjs showAgenda, and the two router copies).
    The JavaScript Date calls are replaced by the Gregorian rules they follow,
    with the server's local time taken to be UTC. */
module Calendar {
  import opened Records

  /** A month of a year; `month` is 1-based. */
  datatype YearMonth = YearMonth(year: int, month: int)

  predicate ValidMonth(ym: YearMonth) {
    1 <= ym.month <= 12
  }

  predicate IsLeapYear(y: int) {
    y % 4 == 0 && (y % 100 != 0 || y % 400 == 0)
  }

  /** `new Date(year, month, 0).getDate()`: the number of days of `month`. */
  function DaysInMonth(ym: YearMonth): (r: int)
    requires ValidMonth(ym)
    ensures 28 <= r <= 31
    ensures r == 29 <==> ym.month == 2 && IsLeapYear(ym.year)
  {
    if ym.month == 2 then (if IsLeapYear(ym.year) then 29 else 28)
    else if ym.month in {4, 6, 9, 11} then 30
    else 31
  }

  /** Days from 1970-01-01 to the 1st of March of year `y`, proleptic
      Gregorian calendar (400-year eras of 146097 days). */
  function MarchFirst(y: int): int {
    var era := y / 400;
    var yoe := y % 400;
    era * 146097 + yoe * 365 + yoe / 4 - yoe / 100 - 719468
  }

  /** Days from the 1st of March to the 1st of the `mp`-th month after it. */
  function MonthOffset(mp: int): int {
    (153 * mp + 2) / 5
  }

  /** The year that holds the given month when years start in March. */
  function MarchYear(ym: YearMonth): int {
    if ym.month <= 2 then ym.year - 1 else ym.year
  }

  /** The month's place in that year: March is 0, February is 11. */
  function MarchIndex(ym: YearMonth): (r: int)
    requires ValidMonth(ym)
    ensures 0 <= r < 12
  {
    (ym.month + 9) % 12
  }

  /** Days from 1970-01-01 to the given date: the year is cut at March so that
      February comes last. */
  function DaysFromCivil(ym: YearMonth, day: int): int
    requires ValidMonth(ym)
  {
    MarchFirst(MarchYear(ym)) + MonthOffset(MarchIndex(ym)) + day - 1
  }

  /** `new Date(year, month - 1, 1).getDay()`: 0 is Sunday (1970-01-01 was a Thursday). */
  function FirstWeekday(ym: YearMonth): (r: int)
    requires ValidMonth(ym)
    ensures 0 <= r < 7
  {
    (DaysFromCivil(ym, 1) + 4) % 7
  }

  /** The Date constructor's carrying of an out-of-range month index:
      `new Date(year, monthIndex, 1)` lands in this month. */
  function Normalize(year: int, monthIndex: int): (r: YearMonth)
    ensures ValidMonth(r)
    ensures 12 * r.year + r.month - 1 == 12 * year + monthIndex
    ensures 0 <= monthIndex < 12 ==> r == YearMonth(year, monthIndex + 1)
  {
    YearMonth(year + monthIndex / 12, monthIndex % 12 + 1)
  }

  /** The Date constructor's reading of a year argument: 0 to 99 stand for
      1900 to 1999, any other year is taken as it is. */
  function FullYear(year: int): (r: int)
    ensures 0 <= year <= 99 ==> r == 1900 + year
    ensures !(0 <= year <= 99) ==> r == year
    ensures r < 0 || r >= 100
  {
    if 0 <= year <= 99 then 1900 + year else year
  }

  /** `new Date(year, monthIndex, …)`: the month the constructor lands in,
      after reading the year and carrying the month index. */
  function DateMonth(year: int, monthIndex: int): (r: YearMonth)
    ensures ValidMonth(r)
    ensures 12 * r.year + r.month - 1 == 12 * FullYear(year) + monthIndex
    ensures year >= 100 && 0 <= monthIndex < 12 ==> r == YearMonth(year, monthIndex + 1)
  {
    Normalize(FullYear(year), monthIndex)
  }

  function NextMonth(ym: YearMonth): (r: YearMonth)
    requires ValidMonth(ym)
    ensures ValidMonth(r)
  {
    if ym.month == 12 then YearMonth(ym.year + 1, 1) else YearMonth(ym.year, ym.month + 1)
  }

  /** Euclidean division by the three divisors of the leap-year rule: a
      decomposition with a remainder in range is the quotient and remainder. */
  lemma Euclid4(y: int, k: int, b: int)
    requires y == 4 * k + b && 0 <= b < 4
    ensures y / 4 == k && y % 4 == b
  {
  }

  lemma Euclid100(y: int, k: int, b: int)
    requires y == 100 * k + b && 0 <= b < 100
    ensures y / 100 == k && y % 100 == b
  {
  }

  lemma Euclid400(y: int, k: int, b: int)
    requires y == 400 * k + b && 0 <= b < 400
    ensures y / 400 == k && y % 400 == b
  {
  }

  /** The leap-year rule only depends on the year's place in its 400-year era. */
  lemma LeapByEra(y: int)
    ensures IsLeapYear(y) <==> var r := y % 400; r % 4 == 0 && (r % 100 != 0 || r == 0)
  {
    var q, r := y / 400, y % 400;
    Euclid4(y, 100 * q + r / 4, r % 4);
    Euclid100(y, 4 * q + r / 100, r % 100);
  }

  /** A March-based year has 366 days exactly when the February it ends with is a leap one. */
  lemma {:induction false} MarchYearLength(y: int)
    ensures MarchFirst(y) - MarchFirst(y - 1) == if IsLeapYear(y) then 366 else 365
  {
    var q, r := y / 400, y % 400;
    LeapByEra(y);
    if r == 0 {
      Euclid400(y - 1, q - 1, 399);
    } else {
      Euclid400(y - 1, q, r - 1);
      assert r / 4 - (r - 1) / 4 == (if r % 4 == 0 then 1 else 0);
      assert r / 100 - (r - 1) / 100 == (if r % 100 == 0 then 1 else 0);
    }
  }

  /** Month lengths from March (index 0) to January (index 10). */
  lemma MonthOffsetStep(i: int)
    requires 0 <= i < 11
    ensures MonthOffset(i + 1) - MonthOffset(i) == if i in {1, 3, 6, 8} then 30 else 31
  {
  }

  /** The first of the next month comes exactly DaysInMonth days after the
      first of this one. */
  lemma {:induction false} MonthLength(ym: YearMonth)
    requires ValidMonth(ym)
    ensures DaysFromCivil(NextMonth(ym), 1) == DaysFromCivil(ym, 1) + DaysInMonth(ym)
  {
    var next := NextMonth(ym);
    if ym.month == 2 {
      assert MarchYear(next) == MarchYear(ym) + 1 == ym.year;
      assert MarchIndex(next) == 0 && MarchIndex(ym) == 11;
      MarchYearLength(ym.year);
      assert MonthOffset(11) == 337 && MonthOffset(0) == 0;
    } else {
      assert MarchYear(next) == MarchYear(ym);
      assert MarchIndex(next) == MarchIndex(ym) + 1;
      MonthOffsetStep(MarchIndex(ym));
    }
  }

  lemma AddMod7(a: int, n: int)
    ensures (a + n) % 7 == (a % 7 + n) % 7
  {
    assert a + n == 7 * (a / 7) + (a % 7 + n);
  }

  /** So the grid's two inputs agree from month to month: the next month
      starts on the weekday that follows this month's last day. */
  lemma {:induction false} NextFirstWeekday(ym: YearMonth)
    requires ValidMonth(ym)
    ensures FirstWeekday(NextMonth(ym)) == (FirstWeekday(ym) + DaysInMonth(ym)) % 7
  {
    MonthLength(ym);
    AddMod7(DaysFromCivil(ym, 1) + 4, DaysInMonth(ym));
  }

  // ---------------------------------------------------------------------
  // The month grid.

  /** What slot `k` (counted row-major from the top-left) of the grid shows:
      the day `k - firstDay + 1` when that is a day of the month, nothing otherwise. */
  function Slot(firstDay: int, daysInMonth: int, k: int): (r: Option<int>)
    ensures r.Some? ==> 1 <= r.value <= daysInMonth
  {
    if firstDay <= k < firstDay + daysInMonth then Some(k - firstDay + 1) else None
  }

  /** The number of week rows: enough 7-slot rows for the padding and every day. */
  function RowCount(firstDay: int, daysInMonth: int): int {
    (firstDay + daysInMonth + 6) / 7
  }

  ghost predicate IsGrid(weeks: seq<seq<Option<int>>>, firstDay: int, daysInMonth: int) {
    && |weeks| == RowCount(firstDay, daysInMonth)
    && (forall r :: 0 <= r < |weeks| ==> |weeks[r]| == 7)
    && (forall r, c :: 0 <= r < |weeks| && 0 <= c < 7 ==> weeks[r][c] == Slot(firstDay, daysInMonth, 7 * r + c))
  }

  /** The loops of showAgenda: the first week is filled from the weekday of
      the 1st, then full weeks follow while days remain; every row is a fresh
      7-slot array of nulls. */
  method BuildWeeks(firstDay: int, daysInMonth: int) returns (weeks: seq<seq<Option<int>>>)
    requires 0 <= firstDay < 7 && 28 <= daysInMonth <= 31
    ensures IsGrid(weeks, firstDay, daysInMonth)
  {
    var week := new Option<int>[7](_ => None);
    var dayCounter := 1;
    for i := firstDay to 7
      invariant dayCounter == i - firstDay + 1
      invariant forall c :: 0 <= c < 7 ==> week[c] == (if firstDay <= c < i then Slot(firstDay, daysInMonth, c) else None)
    {
      week[i] := Some(dayCounter);
      dayCounter := dayCounter + 1;
    }
    weeks := [week[..]];
    while dayCounter <= daysInMonth
      invariant 1 <= |weeks|
      invariant dayCounter == if 7 * |weeks| - firstDay + 1 <= daysInMonth then 7 * |weeks| - firstDay + 1 else daysInMonth + 1
      invariant 7 * (|weeks| - 1) < firstDay + daysInMonth
      invariant forall r :: 0 <= r < |weeks| ==> |weeks[r]| == 7
      invariant forall r, c :: 0 <= r < |weeks| && 0 <= c < 7 ==> weeks[r][c] == Slot(firstDay, daysInMonth, 7 * r + c)
      decreases daysInMonth - dayCounter
    {
      week := new Option<int>[7](_ => None);
      var i := 0;
      while i < 7 && dayCounter <= daysInMonth
        invariant 0 <= i <= 7
        invariant dayCounter == 7 * |weeks| + i - firstDay + 1 <= daysInMonth + 1
        invariant forall c :: 0 <= c < 7 ==> week[c] == (if c < i then Slot(firstDay, daysInMonth, 7 * |weeks| + c) else None)
      {
        week[i] := Some(dayCounter);
        dayCounter := dayCounter + 1;
        i := i + 1;
      }
      assert forall c :: 0 <= c < 7 ==> week[c] == Slot(firstDay, daysInMonth, 7 * |weeks| + c);
      weeks := weeks + [week[..]];
    }
  }

  /** Every day of the month sits in exactly one slot, the one of row
      (firstDay + d - 1) / 7 and column (firstDay + d - 1) % 7. */
  lemma DayPlacement(weeks: seq<seq<Option<int>>>, firstDay: int, daysInMonth: int, d: int)
    requires 0 <= firstDay < 7 && 28 <= daysInMonth <= 31
    requires IsGrid(weeks, firstDay, daysInMonth)
    requires 1 <= d <= daysInMonth
    ensures var k := firstDay + d - 1; k / 7 < |weeks| && weeks[k / 7][k % 7] == Some(d)
    ensures forall r, c :: 0 <= r < |weeks| && 0 <= c < 7 && weeks[r][c] == Some(d) ==>
              r == (firstDay + d - 1) / 7 && c == (firstDay + d - 1) % 7
  {
    var k := firstDay + d - 1;
    assert 7 * (k / 7) + k % 7 == k;
    forall r, c | 0 <= r < |weeks| && 0 <= c < 7 && weeks[r][c] == Some(d)
      ensures r == k / 7 && c == k % 7
    {
      assert 7 * r + c == k;
    }
  }

  /** Slots before the 1st and after the last day are empty. */
  lemma PaddingIsEmpty(weeks: seq<seq<Option<int>>>, firstDay: int, daysInMonth: int)
    requires 0 <= firstDay < 7 && 28 <= daysInMonth <= 31
    requires IsGrid(weeks, firstDay, daysInMonth)
    ensures forall c :: 0 <= c < firstDay ==> weeks[0][c].None?
    ensures forall r, c :: 0 <= r < |weeks| && 0 <= c < 7 && 7 * r + c >= firstDay + daysInMonth ==> weeks[r][c].None?
    ensures weeks[|weeks| - 1][(firstDay + daysInMonth - 1) % 7] == Some(daysInMonth)
  {
    DayPlacement(weeks, firstDay, daysInMonth, daysInMonth);
    var k := firstDay + daysInMonth - 1;
    assert k / 7 == |weeks| - 1;
  }

  // ---------------------------------------------------------------------
  // Month navigation.

  /** The controller's previous month: month - 1, with 0 turned into December of the year before. */
  function PrevMonthLink(year: int, month: int): (r: YearMonth)
    ensures ValidMonth(YearMonth(year, month)) ==> ValidMonth(r)
    ensures month == 1 ==> r == YearMonth(year - 1, 12)
    ensures 1 < month <= 13 ==> r == YearMonth(year, month - 1)
  {
    if month - 1 < 1 then YearMonth(year - 1, 12) else YearMonth(year, month - 1)
  }

  /** The controller's next month: month + 1, with 13 turned into January of the year after. */
  function NextMonthLink(year: int, month: int): (r: YearMonth)
    ensures ValidMonth(YearMonth(year, month)) ==> ValidMonth(r)
    ensures month == 12 ==> r == YearMonth(year + 1, 1)
    ensures 0 <= month < 12 ==> r == YearMonth(year, month + 1)
  {
    if month + 1 > 12 then YearMonth(year + 1, 1) else YearMonth(year, month + 1)
  }

  /** For a real month the two links step one month back and forth and undo each other. */
  lemma NavigationLinks(ym: YearMonth)
    requires ValidMonth(ym)
    ensures NextMonthLink(ym.year, ym.month) == NextMonth(ym)
    ensures var p := PrevMonthLink(ym.year, ym.month); NextMonthLink(p.year, p.month) == ym
    ensures var n := NextMonthLink(ym.year, ym.month); PrevMonthLink(n.year, n.month) == ym
    ensures var p := PrevMonthLink(ym.year, ym.month);
              12 * p.year + p.month + 1 == 12 * ym.year + ym.month
  {
  }

  /** The older router's links, with 0-based months: whatever month the Date
      constructor lands on for index - 1 and index + 1. */
  function PrevMonthIndexLink(year: int, monthIndex: int): (r: YearMonth)
    ensures ValidMonth(r)
    ensures monthIndex == 0 ==> r == YearMonth(FullYear(year) - 1, 12)
    ensures 1 <= monthIndex < 12 ==> r == YearMonth(FullYear(year), monthIndex)
  {
    DateMonth(year, monthIndex - 1)
  }

  function NextMonthIndexLink(year: int, monthIndex: int): (r: YearMonth)
    ensures ValidMonth(r)
    ensures monthIndex == 11 ==> r == YearMonth(FullYear(year) + 1, 1)
    ensures 0 <= monthIndex < 11 ==> r == YearMonth(FullYear(year), monthIndex + 2)
  {
    DateMonth(year, monthIndex + 1)
  }

  /** Whatever the index, the older router's links are the months just
      before and just after the month it displays. */
  lemma {:induction false} IndexLinksAreNeighbours(year: int, monthIndex: int)
    ensures var shown := DateMonth(year, monthIndex);
            NextMonth(PrevMonthIndexLink(year, monthIndex)) == shown
            && NextMonthIndexLink(year, monthIndex) == NextMonth(shown)
  {
    var shown := DateMonth(year, monthIndex);
    var p := PrevMonthIndexLink(year, monthIndex);
    var n := NextMonthIndexLink(year, monthIndex);
    assert 12 * p.year + p.month + 1 == 12 * shown.year + shown.month;
    assert 12 * n.year + n.month == 12 * shown.year + shown.month + 1;
    SameMonthNumber(NextMonth(p), shown);
    SameMonthNumber(n, NextMonth(shown));
  }

  /** Two valid months with the same running month number are the same month. */
  lemma SameMonthNumber(a: YearMonth, b: YearMonth)
    requires ValidMonth(a) && ValidMonth(b)
    requires 12 * a.year + a.month == 12 * b.year + b.month
    ensures a == b
  {
  }
}
