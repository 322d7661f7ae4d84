/**
 * The handler of calendar presses in bot/main.py (`calendar_callback`):
 * cancel, the inert cells, moving one month back or forward, and picking a
 * day.
 */
module CalendarCallback {
  import opened Wrappers
  import opened Text
  import opened Dates
  import opened Markup
  import opened CalendarKeyboard

  /** What a press on the calendar leads to. */
  datatype Outcome =
    | Cancelled                     // the draft is dropped and the message deleted
    | Ignored                       // the press is only acknowledged
    | ShowMonth(year: int, month: int)  // the keyboard is redrawn for that month
    | PickDate(date: string)        // the text after "cal:" is stored as the chosen date
    | Crash                         // the handler raises (`ValueError` from unpacking, `int` or `datetime`)

  /** Months counted from year 0: consecutive months have consecutive indices. */
  function MonthIndex(y: int, m: int): int {
    y * 12 + (m - 1)
  }

  /** `month -= 1`, wrapping to December of the year before. */
  function PrevMonth(y: int, m: int): (r: (int, int))
    ensures 1 <= m <= 12 ==> 1 <= r.1 <= 12 && MonthIndex(r.0, r.1) == MonthIndex(y, m) - 1
  {
    if m - 1 < 1 then (y - 1, 12) else (y, m - 1)
  }

  /** `month += 1`, wrapping to January of the year after. */
  function NextMonth(y: int, m: int): (r: (int, int))
    ensures 1 <= m <= 12 ==> 1 <= r.1 <= 12 && MonthIndex(r.0, r.1) == MonthIndex(y, m) + 1
  {
    if m + 1 > 12 then (y + 1, 1) else (y, m + 1)
  }

  /** Going back a month and then forward again returns to the start, and vice versa. */
  lemma PrevNextInverse(y: int, m: int)
    requires 1 <= m <= 12
    ensures NextMonth(PrevMonth(y, m).0, PrevMonth(y, m).1) == (y, m)
    ensures PrevMonth(NextMonth(y, m).0, NextMonth(y, m).1) == (y, m)
  {
  }

  /** `_, action, year_month = data.split(":")` and the rest of the navigation branch. */
  function Navigate(data: string): (r: Outcome)
    ensures r == Crash || r.ShowMonth?
    ensures |SplitOn(data, ':')| != 3 ==> r == Crash
    ensures r.ShowMonth? ==> 1 <= r.month <= 12 && ValidDate(Date(r.year, r.month, 1))
  {
    var parts := SplitOn(data, ':');
    if |parts| != 3 then Crash
    else
      var fields := SplitOn(parts[2], '-');
      if |fields| != 2 || PyInt(fields[0]).None? || PyInt(fields[1]).None? then Crash
      else
        var y, m := PyInt(fields[0]).value, PyInt(fields[1]).value;
        var target := if parts[1] == "prev" then PrevMonth(y, m) else NextMonth(y, m);
        if ValidDate(Date(target.0, target.1, 1)) then ShowMonth(target.0, target.1) else Crash
  }

  /**
   * The handler, for callback data that starts with "cal:" as its filter
   * demands. A picked date is the text after "cal:"; the draft lookup that
   * follows it is not part of this function.
   */
  function CalendarAction(data: string): (r: Outcome)
    requires StartsWith(data, "cal:")
    ensures r == Cancelled <==> data == "cal:cancel"
    ensures r == Ignored <==> data == "cal:ignore"
    ensures StartsWith(data, "cal:prev:") || StartsWith(data, "cal:next:") ==> r == Crash || r.ShowMonth?
    ensures r.PickDate? <==> !(StartsWith(data, "cal:prev:") || StartsWith(data, "cal:next:")) && data != "cal:cancel" && data != "cal:ignore"
    ensures r.PickDate? ==> r.date == data[4..]
  {
    FixedNotArrows();
    if data == "cal:cancel" then Cancelled
    else if data == "cal:ignore" then Ignored
    else if StartsWith(data, "cal:prev:") || StartsWith(data, "cal:next:") then Navigate(data)
    else PickDate(data[4..])
  }

  /** "cal:cancel" and "cal:ignore" start with neither arrow prefix. */
  lemma FixedNotArrows()
    ensures !StartsWith("cal:cancel", "cal:prev:") && !StartsWith("cal:cancel", "cal:next:")
    ensures !StartsWith("cal:ignore", "cal:prev:") && !StartsWith("cal:ignore", "cal:next:")
  {
    assert "cal:cancel"[..9][4] == 'c' && "cal:ignore"[..9][4] == 'i';
  }

  /** A callback of the form "cal:<action>:<rest>" splits into its three fields. */
  lemma ColonFields(action: string, rest: string)
    requires action == "prev" || action == "next"
    requires ':' !in rest
    ensures SplitOn("cal:" + action + ":" + rest, ':') == ["cal", action, rest]
  {
    assert Join([':'], [rest]) == rest;
    assert ["cal", action, rest][1..] == [action, rest] && [action, rest][1..] == [rest];
    assert Join([':'], [action, rest]) == action + ":" + rest;
    assert Join([':'], ["cal", action, rest]) == "cal" + ":" + (action + ":" + rest);
    assert "cal:" + action + ":" + rest == "cal" + ":" + (action + ":" + rest);
    SplitOnJoin(["cal", action, rest], ':');
  }

  /** The year-month text splits at its dash into year and month. */
  lemma YearMonthFields(y: int, m: int)
    requires MinYear <= y <= MaxYear && 1 <= m <= 12
    ensures ':' !in YearMonthText(y, m)
    ensures SplitOn(YearMonthText(y, m), '-') == [Pad4(y), Pad2(m)]
  {
    var p4, p2 := Pad4(y), Pad2(m);
    var ym := YearMonthText(y, m);
    assert ym == p4 + "-" + p2;
    assert '-' !in p4 && ':' !in p4 by { forall k | 0 <= k < 4 ensures p4[k] != '-' && p4[k] != ':' { assert IsDigit(p4[k]); } }
    assert '-' !in p2 && ':' !in p2 by { forall k | 0 <= k < 2 ensures p2[k] != '-' && p2[k] != ':' { assert IsDigit(p2[k]); } }
    assert Join(['-'], [p2]) == p2;
    assert Join(['-'], [p4, p2]) == ym;
    SplitOnJoin([p4, p2], '-');
  }

  /** A navigation callback with a well-formed month splits into its three fields. */
  lemma NavFields(action: string, y: int, m: int)
    requires action == "prev" || action == "next"
    requires MinYear <= y <= MaxYear && 1 <= m <= 12
    ensures SplitOn("cal:" + action + ":" + YearMonthText(y, m), ':') == ["cal", action, YearMonthText(y, m)]
    ensures SplitOn(YearMonthText(y, m), '-') == [Pad4(y), Pad2(m)]
  {
    YearMonthFields(y, m);
    ColonFields(action, YearMonthText(y, m));
  }

  /** The month of the header's arrows, read back from their callbacks. */
  lemma HeaderFieldsParse(y: int, m: int)
    requires MinYear <= y <= MaxYear && 1 <= m <= 12
    ensures PyInt(Pad4(y)) == Some(y) && PyInt(Pad2(m)) == Some(m)
  {
    PyIntOfDigits(Pad4(y));
    PyIntOfDigits(Pad2(m));
  }

  /** What the navigation branch does with an arrow's callback of month m of year y. */
  lemma NavigateArrow(action: string, y: int, m: int)
    requires action == "prev" || action == "next"
    requires MinYear <= y <= MaxYear && 1 <= m <= 12
    ensures var t := if action == "prev" then PrevMonth(y, m) else NextMonth(y, m);
      Navigate("cal:" + action + ":" + YearMonthText(y, m)) ==
        if ValidDate(Date(t.0, t.1, 1)) then ShowMonth(t.0, t.1) else Crash
  {
    NavFields(action, y, m);
    HeaderFieldsParse(y, m);
  }

  /** Arrow callbacks reach the navigation branch. */
  lemma ArrowDispatch(action: string, ym: string)
    requires action == "prev" || action == "next"
    ensures var data := "cal:" + action + ":" + ym;
      StartsWith(data, "cal:") && CalendarAction(data) == Navigate(data)
  {
    ArrowPrefix(action, ym);
    ArrowNotFixed(action, ym);
  }

  /** An arrow's callback starts with "cal:prev:" or "cal:next:". */
  lemma ArrowPrefix(action: string, ym: string)
    requires action == "prev" || action == "next"
    ensures var data := "cal:" + action + ":" + ym;
      && StartsWith(data, "cal:")
      && (StartsWith(data, "cal:prev:") || StartsWith(data, "cal:next:"))
  {
    var data := "cal:" + action + ":" + ym;
    assert data[..9] == "cal:" + action + ":";
    assert data[..4] == "cal:";
    if action == "prev" {
      assert "cal:" + action + ":" == "cal:prev:";
    } else {
      assert "cal:" + action + ":" == "cal:next:";
    }
  }

  /** An arrow's callback is neither the cancel button nor an inert cell. */
  lemma ArrowNotFixed(action: string, ym: string)
    requires action == "prev" || action == "next"
    ensures var data := "cal:" + action + ":" + ym;
      data != "cal:cancel" && data != "cal:ignore"
  {
    var data := "cal:" + action + ":" + ym;
    assert data[4] == action[0];
    assert "cal:cancel"[4] == 'c' && "cal:ignore"[4] == 'i';
  }

  /**
   * The "◀" arrow of a month's calendar shows the month before it; at the
   * first month `datetime` can represent, it raises instead.
   */
  lemma PrevArrowShowsPreviousMonth(y: int, m: int, monthName: string)
    requires MinYear <= y <= MaxYear && 1 <= m <= 12
    ensures var p := PrevMonth(y, m);
      CalendarAction(HeaderRow(y, m, monthName)[0].callback) ==
        if y == MinYear && m == 1 then Crash else ShowMonth(p.0, p.1)
  {
    assert HeaderRow(y, m, monthName)[0].callback == "cal:" + "prev" + ":" + YearMonthText(y, m);
    ArrowDispatch("prev", YearMonthText(y, m));
    NavigateArrow("prev", y, m);
  }

  /**
   * The "▶" arrow shows the month after; at the last month `datetime` can
   * represent, it raises instead.
   */
  lemma NextArrowShowsNextMonth(y: int, m: int, monthName: string)
    requires MinYear <= y <= MaxYear && 1 <= m <= 12
    ensures var n := NextMonth(y, m);
      CalendarAction(HeaderRow(y, m, monthName)[2].callback) ==
        if y == MaxYear && m == 12 then Crash else ShowMonth(n.0, n.1)
  {
    assert HeaderRow(y, m, monthName)[2].callback == "cal:" + "next" + ":" + YearMonthText(y, m);
    ArrowDispatch("next", YearMonthText(y, m));
    NavigateArrow("next", y, m);
  }

  /** Paging back and then forward lands on the month the calendar started at. */
  lemma ArrowsUndoEachOther(y: int, m: int, name1: string, name2: string)
    requires MinYear <= y <= MaxYear && 1 <= m <= 12 && !(y == MinYear && m == 1)
    ensures var p := PrevMonth(y, m);
      && CalendarAction(HeaderRow(y, m, name1)[0].callback) == ShowMonth(p.0, p.1)
      && CalendarAction(HeaderRow(p.0, p.1, name2)[2].callback) == ShowMonth(y, m)
  {
    var p := PrevMonth(y, m);
    PrevArrowShowsPreviousMonth(y, m, name1);
    PrevNextInverse(y, m);
    NextArrowShowsNextMonth(p.0, p.1, name2);
  }

  /** A day cell's callback stores exactly the date text of that day. */
  lemma DayCellPicksItsDate(y: int, m: int, day: int)
    requires MinYear <= y <= MaxYear && 1 <= m <= 12 && 0 <= day <= 31
    ensures CalendarAction(DayCallback(y, m, day)) == PickDate(DateText(y, m, day))
  {
    var data := DayCallback(y, m, day);
    var t := DateText(y, m, day);
    assert data[..4] == "cal:" && data[4..] == t;
    assert data[4] == t[0] && IsDigit(t[0]);
    assert !StartsWith(data, "cal:prev:") && !StartsWith(data, "cal:next:");
    assert data != "cal:cancel" && data != "cal:ignore";
  }
}
