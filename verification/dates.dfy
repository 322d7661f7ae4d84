/**
 * The proleptic Gregorian calendar as Python's `datetime.date` implements it:
 * years 1..9999, month lengths with the 4/100/400 leap rule, day ordinals
 * counted from 0001-01-01, Monday-first weekdays, and the month grid of
 * `calendar.monthcalendar`.
 */
module Dates {
  import opened Text

  const MinYear := 1
  const MaxYear := 9999

  datatype Date = Date(year: int, month: int, day: int)

  predicate IsLeap(y: int) {
    y % 4 == 0 && (y % 100 != 0 || y % 400 == 0)
  }

  function DaysInMonth(y: int, m: int): (n: int)
    requires 1 <= m <= 12
    ensures 28 <= n <= 31
    ensures n == 29 <==> m == 2 && IsLeap(y)
  {
    if m == 2 then (if IsLeap(y) then 29 else 28)
    else if m == 4 || m == 6 || m == 9 || m == 11 then 30
    else 31
  }

  /** What the `date` constructor accepts. */
  predicate ValidDate(d: Date) {
    && MinYear <= d.year <= MaxYear
    && 1 <= d.month <= 12
    && 1 <= d.day <= DaysInMonth(d.year, d.month)
  }

  /** `date.max`, the one date without a successor. */
  const LastDate := Date(MaxYear, 12, 31)

  /** Chronological order, `a < b` on dates. */
  predicate Before(a: Date, b: Date) {
    || a.year < b.year
    || (a.year == b.year && a.month < b.month)
    || (a.year == b.year && a.month == b.month && a.day < b.day)
  }

  /** `d + timedelta(days=1)`; Python raises OverflowError at `date.max`. */
  function NextDay(d: Date): (r: Date)
    requires ValidDate(d) && d != LastDate
    ensures ValidDate(r) && Before(d, r)
  {
    if d.day < DaysInMonth(d.year, d.month) then Date(d.year, d.month, d.day + 1)
    else if d.month < 12 then Date(d.year, d.month + 1, 1)
    else Date(d.year + 1, 1, 1)
  }

  /** No valid date lies strictly between a date and its successor. */
  lemma NextDayIsImmediate(d: Date, e: Date)
    requires ValidDate(d) && d != LastDate && ValidDate(e)
    ensures !(Before(d, e) && Before(e, NextDay(d)))
  {
  }

  // ---------------------------------------------------------------- strftime

  /** `strftime('%Y-%m')`. */
  function YearMonthText(y: int, m: int): (s: string)
    requires MinYear <= y <= MaxYear && 1 <= m <= 12
    ensures |s| == 7 && s[4] == '-' && AllDigits(s[..4]) && AllDigits(s[5..])
  {
    Pad4(y) + "-" + Pad2(m)
  }

  /** `strftime('%Y-%m-%d')`. */
  function IsoDate(d: Date): (s: string)
    requires ValidDate(d)
    ensures |s| == 10
  {
    DateText(d.year, d.month, d.day)
  }

  /** "YYYY-MM-DD" for any two-digit month and day, in range or not. */
  function DateText(y: int, m: int, day: int): (s: string)
    requires MinYear <= y <= MaxYear && 0 <= m < 100 && 0 <= day < 100
    ensures |s| == 10 && IsDigit(s[0]) && IsDigit(s[9])
  {
    Pad4(y) + "-" + Pad2(m) + "-" + Pad2(day)
  }

  /** `f"{h:02d}:{m:02d}"`, as `strftime('%H:%M')` writes a time of day too. */
  function ClockText(h: nat, m: nat): (s: string)
    requires h < 100 && m < 100
    ensures |s| == 5 && s[2] == ':' && IsDigit(s[0]) && IsDigit(s[4])
  {
    Pad2(h) + ":" + Pad2(m)
  }

  // ---------------------------------------------------------------- ordinals

  function DaysBeforeYear(y: int): int
    requires y >= 1
  {
    (y - 1) * 365 + (y - 1) / 4 - (y - 1) / 100 + (y - 1) / 400
  }

  function DaysBeforeMonth(y: int, m: int): (n: nat)
    requires 1 <= m <= 12
    decreases m
  {
    if m == 1 then 0 else DaysBeforeMonth(y, m - 1) + DaysInMonth(y, m - 1)
  }

  /** `date.toordinal()`: 0001-01-01 is day 1. */
  function Ordinal(d: Date): int
    requires ValidDate(d)
  {
    DaysBeforeYear(d.year) + DaysBeforeMonth(d.year, d.month) + d.day
  }

  /** `date.weekday()`: Monday is 0, Sunday is 6. */
  function Weekday(d: Date): (w: nat)
    requires ValidDate(d)
    ensures w < 7
  {
    (Ordinal(d) + 6) % 7
  }

  lemma DivSteps(y: int)
    requires y >= 1
    ensures y / 4 - (y - 1) / 4 == if y % 4 == 0 then 1 else 0
    ensures y / 100 - (y - 1) / 100 == if y % 100 == 0 then 1 else 0
    ensures y / 400 - (y - 1) / 400 == if y % 400 == 0 then 1 else 0
  {
  }

  lemma YearLength(y: int)
    requires y >= 1
    ensures DaysBeforeYear(y + 1) - DaysBeforeYear(y) == if IsLeap(y) then 366 else 365
  {
    DivSteps(y);
    if y % 400 == 0 {
      assert y % 100 == 0 && y % 4 == 0;
    } else if y % 100 == 0 {
      assert y % 4 == 0;
    }
  }

  lemma DaysBeforeDecember(y: int)
    ensures DaysBeforeMonth(y, 12) + 31 == if IsLeap(y) then 366 else 365
  {
    assert DaysBeforeMonth(y, 3) == 31 + DaysInMonth(y, 2);
    assert DaysBeforeMonth(y, 6) == DaysBeforeMonth(y, 3) + 92;
    assert DaysBeforeMonth(y, 9) == DaysBeforeMonth(y, 6) + 92;
    assert DaysBeforeMonth(y, 12) == DaysBeforeMonth(y, 9) + 91;
  }

  /** The ordinal is a day counter: the next day is exactly one further. */
  lemma OrdinalNextDay(d: Date)
    requires ValidDate(d) && d != LastDate
    ensures Ordinal(NextDay(d)) == Ordinal(d) + 1
  {
    if d.day == DaysInMonth(d.year, d.month) && d.month == 12 {
      YearLength(d.year);
      DaysBeforeDecember(d.year);
    }
  }

  lemma ModShift(a: int, k: int)
    ensures (a + k) % 7 == (a % 7 + k) % 7
  {
  }

  lemma WeekdayNextDay(d: Date)
    requires ValidDate(d) && d != LastDate
    ensures Weekday(NextDay(d)) == (Weekday(d) + 1) % 7
  {
    OrdinalNextDay(d);
    ModShift(Ordinal(d) + 6, 1);
  }

  /** Within a month the weekday advances by one per day. */
  lemma WeekdayInMonth(y: int, m: int, day: int)
    requires ValidDate(Date(y, m, day))
    ensures Weekday(Date(y, m, day)) == (Weekday(Date(y, m, 1)) + day - 1) % 7
  {
    var first := Ordinal(Date(y, m, 1));
    assert Ordinal(Date(y, m, day)) == first + day - 1;
    ModShift(first + 6, day - 1);
  }

  // ---------------------------------------------------------------- month grid

  /** Day number shown in cell `j` of a month starting on column `offset` with `n` days. */
  function CellDay(offset: nat, n: nat, j: int): (d: nat)
    ensures d <= n
  {
    if offset <= j < offset + n then j - offset + 1 else 0
  }

  /**
   * `calendar.monthcalendar(y, m)`: Monday-first weeks of seven cells, 0 for
   * cells outside the month.
   */
  function MonthGrid(y: int, m: int): (weeks: seq<seq<nat>>)
    requires MinYear <= y <= MaxYear && 1 <= m <= 12
    ensures forall w :: 0 <= w < |weeks| ==> |weeks[w]| == 7
    ensures forall w, i :: 0 <= w < |weeks| && 0 <= i < |weeks[w]| ==> weeks[w][i] <= DaysInMonth(y, m)
  {
    var offset := Weekday(Date(y, m, 1));
    var n := DaysInMonth(y, m);
    seq((offset + n + 6) / 7, w => Week(offset, n, w))
  }

  function Week(offset: nat, n: nat, w: int): (cells: seq<nat>)
    ensures |cells| == 7 && forall i :: 0 <= i < 7 ==> cells[i] <= n
  {
    var cells := seq<nat>(7, i => CellDay(offset, n, 7 * w + i));
    assert forall i :: 0 <= i < 7 ==> cells[i] == CellDay(offset, n, 7 * w + i);
    cells
  }

  lemma GridCell(y: int, m: int, w: int, i: int)
    requires MinYear <= y <= MaxYear && 1 <= m <= 12
    requires 0 <= w < |MonthGrid(y, m)| && 0 <= i < 7
    ensures |MonthGrid(y, m)[w]| == 7
    ensures MonthGrid(y, m)[w][i] == CellDay(Weekday(Date(y, m, 1)), DaysInMonth(y, m), 7 * w + i)
  {
    assert MonthGrid(y, m)[w] == Week(Weekday(Date(y, m, 1)), DaysInMonth(y, m), w);
  }

  /** Every week of the grid has seven cells. */
  lemma GridWeeksAreFull(y: int, m: int)
    requires MinYear <= y <= MaxYear && 1 <= m <= 12
    ensures MonthGrid(y, m) != []
    ensures forall w :: 0 <= w < |MonthGrid(y, m)| ==> |MonthGrid(y, m)[w]| == 7
  {
  }

  /** A non-zero cell is a date of that month, shown in its weekday's column. */
  lemma GridDayColumn(y: int, m: int, w: int, i: int)
    requires MinYear <= y <= MaxYear && 1 <= m <= 12
    requires 0 <= w < |MonthGrid(y, m)| && 0 <= i < 7 && MonthGrid(y, m)[w][i] != 0
    ensures ValidDate(Date(y, m, MonthGrid(y, m)[w][i]))
    ensures Weekday(Date(y, m, MonthGrid(y, m)[w][i])) == i
  {
    var offset := Weekday(Date(y, m, 1));
    GridCell(y, m, w, i);
    var d := MonthGrid(y, m)[w][i];
    assert d == 7 * w + i - offset + 1;
    WeekdayInMonth(y, m, d);
    assert (offset + d - 1) % 7 == (7 * w + i) % 7 == i;
  }

  /** Every day of the month appears in the grid, at the position its weekday gives. */
  lemma GridHasDay(y: int, m: int, d: int) returns (w: nat, i: nat)
    requires ValidDate(Date(y, m, d))
    ensures w < |MonthGrid(y, m)| && i < 7 && MonthGrid(y, m)[w][i] == d
  {
    var j := Weekday(Date(y, m, 1)) + d - 1;
    w, i := j / 7, j % 7;
    GridCell(y, m, w, i);
  }

  /** No day appears twice. */
  lemma GridDaysDistinct(y: int, m: int, w: int, i: int, w': int, i': int)
    requires MinYear <= y <= MaxYear && 1 <= m <= 12
    requires 0 <= w < |MonthGrid(y, m)| && 0 <= i < 7
    requires 0 <= w' < |MonthGrid(y, m)| && 0 <= i' < 7
    requires MonthGrid(y, m)[w][i] != 0 && MonthGrid(y, m)[w][i] == MonthGrid(y, m)[w'][i']
    ensures w == w' && i == i'
  {
    GridCell(y, m, w, i);
    GridCell(y, m, w', i');
  }
}
