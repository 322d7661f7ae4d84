/**
 * The date and time pickers of bot/handlers/calendar.py: a month calendar
 * whose past days are greyed out, and a grid of time slots.
 */
module CalendarKeyboard {
  import opened Text
  import opened Dates
  import opened Markup
  import opened Wrappers
  import opened Deadline

  const Ignore := "cal:ignore"
  const CancelRow := [Button("❌ Отмена", "cal:cancel")]

  // ---------------------------------------------------------------- time slots

  /**
   * Slots in one hour: the minute goes 0, step, 2·step, ... while it stays
   * below 60 and then restarts at 0 (not at the overshoot), so an hour holds
   * the ceiling of 60/step slots.
   */
  function SlotsPerHour(step: nat): (n: nat)
    requires step > 0
    ensures n >= 1 && (n - 1) * step < 60 <= n * step
  {
    var n := (59 + step) / step;
    assert n * step <= 59 + step < n * step + step;
    n
  }

  /** The j-th minute of an hour is below 60 exactly while j counts a slot. */
  lemma SlotMinuteBound(step: nat, j: nat)
    requires step > 0
    ensures j * step < 60 <==> j < SlotsPerHour(step)
  {
    var n := SlotsPerHour(step);
    if j < n {
      MulMonotone(j, n - 1, step);
    } else {
      MulMonotone(n, j, step);
    }
  }

  lemma MulMonotone(a: int, b: int, n: nat)
    requires a <= b
    ensures a * n <= b * n
  {
  }

  lemma MulStrict(a: int, b: int, n: nat)
    requires a < b && n > 0
    ensures a * n < b * n
  {
  }

  lemma MulCancel(a: int, b: int, n: nat)
    requires a * n < b * n
    ensures a < b
  {
    if a >= b {
      MulMonotone(b, a, n);
    }
  }

  /** Division by n undoes `h * n + j` for a remainder j below n. */
  lemma DivModOf(h: nat, j: nat, n: nat)
    requires j < n
    ensures (h * n + j) / n == h && (h * n + j) % n == j
  {
    var k := h * n + j;
    var q, r := k / n, k % n;
    assert q * n + r == k;
    assert (h + 1) * n == h * n + n && (q + 1) * n == q * n + n;
    MulCancel(q, h + 1, n);
    MulCancel(h, q + 1, n);
  }

  lemma SlotIndex(step: nat, k: nat)
    requires step > 0 && k < 24 * SlotsPerHour(step)
    ensures var n := SlotsPerHour(step); var j := k % n;
      && k / n < 24 && j * step < 60 && (j * step) % step == 0 && (j * step) / step == j
      && k == (k / n) * n + j
  {
    var n := SlotsPerHour(step);
    var q, j := k / n, k % n;
    SlotMinuteBound(step, j);
    assert q * n <= k < 24 * n;
    MulCancel(q, 24, n);
    DivModOf(j, 0, step);
  }

  /** Hour and minute of the k-th slot of the day. */
  function SlotTime(step: nat, k: nat): (t: (nat, nat))
    requires step > 0 && k < 24 * SlotsPerHour(step)
    ensures t.0 < 24 && t.1 < 60 && t.1 % step == 0 && t.1 / step < SlotsPerHour(step)
    ensures k == t.0 * SlotsPerHour(step) + t.1 / step
  {
    var n := SlotsPerHour(step);
    SlotIndex(step, k);
    (k / n, (k % n) * step)
  }

  /** The labels `build_time_kb` lists, "HH:MM" for every slot of the day. */
  function Slots(step: nat): (labels: seq<string>)
    requires step > 0
  {
    seq(24 * SlotsPerHour(step), k requires 0 <= k < 24 * SlotsPerHour(step) =>
      ClockText(SlotTime(step, k).0, SlotTime(step, k).1))
  }

  /** The while loop of `build_time_kb`. */
  method TimeSlots(step: nat) returns (times: seq<string>)
    requires step > 0
    ensures |times| == 24 * SlotsPerHour(step)
    ensures times == Slots(step)
  {
    ghost var all := Slots(step);
    ghost var n := SlotsPerHour(step);
    times := [];
    var hour, minute := 0, 0;
    ghost var j := 0;
    while hour < 24
      invariant 0 <= hour <= 24 && 0 <= j < n && minute == j * step
      invariant hour == 24 ==> j == 0
      invariant |times| == hour * n + j <= |all|
      invariant times == all[..|times|]
      decreases 24 - hour, n - j
    {
      SlotStep(step, hour, j);
      SlotAt(step, hour, j);
      PrefixExtend(all, |times|);
      times := times + [ClockText(hour, minute)];
      minute := minute + step;
      if minute >= 60 {
        minute, j := 0, 0;
        hour := hour + 1;
      } else {
        j := j + 1;
      }
    }
    assert |times| == |all|;
  }

  /** Slot j of hour h sits at index h·n + j of the day's list. */
  lemma SlotAt(step: nat, h: nat, j: nat)
    requires step > 0 && h < 24 && j < SlotsPerHour(step)
    ensures h * SlotsPerHour(step) + j < |Slots(step)|
    ensures Slots(step)[h * SlotsPerHour(step) + j] == ClockText(h, j * step)
  {
    var n := SlotsPerHour(step);
    var k := h * n + j;
    SlotStep(step, h, j);
    assert SlotTime(step, k) == (h, j * step) by {
      DivModOf(h, j, n);
    }
  }

  /** The arithmetic of one round of the loop: the index stays in the day and the minute in the hour. */
  lemma SlotStep(step: nat, h: nat, j: nat)
    requires step > 0 && h < 24 && j < SlotsPerHour(step)
    ensures var n := SlotsPerHour(step);
      && h * n + j < 24 * n && (h + 1) * n == h * n + n
      && j * step < 60 && (j + 1) * step == j * step + step
      && ((j + 1) * step < 60 <==> j + 1 < n)
  {
    var n := SlotsPerHour(step);
    assert (h + 1) * n == h * n + n;
    MulMonotone(h + 1, 24, n);
    SlotMinuteBound(step, j);
    SlotMinuteBound(step, j + 1);
    assert (j + 1) * step == j * step + step;
  }

  function MinuteOfSlot(t: (nat, nat)): nat {
    t.0 * 60 + t.1
  }

  /** The first slot is midnight. */
  lemma SlotsStartAtMidnight(step: nat)
    requires step > 0
    ensures Slots(step)[0] == "00:00"
  {
    assert SlotTime(step, 0) == (0, 0);
    assert ClockText(0, 0) == "00:00";
  }

  /** Slots strictly increase through the day. */
  lemma SlotsIncrease(step: nat, k1: nat, k2: nat)
    requires step > 0 && k1 < k2 < 24 * SlotsPerHour(step)
    ensures MinuteOfSlot(SlotTime(step, k1)) < MinuteOfSlot(SlotTime(step, k2))
  {
    var n := SlotsPerHour(step);
    assert SlotTime(step, k1) == (k1 / n, (k1 % n) * step);
    assert SlotTime(step, k2) == (k2 / n, (k2 % n) * step);
    MinutesIncrease(n, step, k1, k2);
  }

  /** Minutes of the day grow with the slot index. */
  lemma MinutesIncrease(n: nat, step: nat, k1: nat, k2: nat)
    requires n >= 1 && step > 0 && (n - 1) * step < 60 && k1 < k2
    ensures (k1 / n) * 60 + (k1 % n) * step < (k2 / n) * 60 + (k2 % n) * step
  {
    var q1, r1, q2, r2 := k1 / n, k1 % n, k2 / n, k2 % n;
    assert k1 == q1 * n + r1 && k2 == q2 * n + r2 && r1 < n && r2 < n;
    assert r1 * step < 60 by { MulMonotone(r1, n - 1, step); }
    assert 0 <= r2 * step;
    assert q1 <= q2 by {
      assert (q2 + 1) * n == q2 * n + n;
      MulCancel(q1, q2 + 1, n);
    }
    if q1 == q2 {
      MulStrict(r1, r2, step);
    } else {
      MulMonotone(q1 + 1, q2, 60);
      assert (q1 + 1) * 60 == q1 * 60 + 60;
    }
  }

  /** Every time of day whose minute is a multiple of the step is offered. */
  lemma SlotsCoverStepTimes(step: nat, h: nat, m: nat) returns (k: nat)
    requires step > 0 && h < 24 && m < 60 && m % step == 0
    ensures k < 24 * SlotsPerHour(step) && SlotTime(step, k) == (h, m)
  {
    var n := SlotsPerHour(step);
    var j := m / step;
    assert j * step == m;
    SlotMinuteBound(step, j);
    k := h * n + j;
    assert k < 24 * n by {
      assert (h + 1) * n == h * n + n;
      MulMonotone(h + 1, 24, n);
    }
    DivModOf(h, j, n);
  }

  // ---------------------------------------------------------------- time keyboard

  function TimeButton(name: string): Button {
    Button(name, "time:" + name)
  }

  function TimeButtons(labels: seq<string>): (bs: seq<Button>)
    ensures |bs| == |labels|
  {
    seq(|labels|, k requires 0 <= k < |labels| => TimeButton(labels[k]))
  }

  /** `time_callback` takes the name back from the callback data. */
  lemma TimeCallbackCarriesLabel(name: string)
    ensures TimeButton(name).callback[5..] == name
  {
  }

  /** The chunking loop: rows of four buttons, the last possibly shorter. */
  method TimeRows(times: seq<string>) returns (rows: Keyboard)
    ensures Flatten(rows) == TimeButtons(times)
    ensures |rows| == (|times| + 3) / 4
    ensures forall r :: 0 <= r < |rows| ==> 1 <= |rows[r]| <= 4
    ensures forall r :: 0 <= r < |rows| - 1 ==> |rows[r]| == 4
  {
    rows := [];
    var i := 0;
    assert times[..0] == [];
    while i < |times|
      invariant RowsSoFar(times, rows, i)
      decreases |times| - i
    {
      var end := if i + 4 <= |times| then i + 4 else |times|;
      var row := ButtonRow(times, i, end);
      RowsStep(times, rows, row, i, end);
      rows := rows + [row];
      i := i + 4;
    }
    assert times[..|times|] == times;
  }

  /** The buttons of `times[i:end]`, one per label, built by the inner loop. */
  method ButtonRow(times: seq<string>, i: nat, end: nat) returns (row: seq<Button>)
    requires i <= end <= |times|
    ensures row == TimeButtons(times[i..end])
  {
    row := [];
    var t := i;
    while t < end
      invariant i <= t <= end
      invariant row == TimeButtons(times[i..t])
    {
      assert times[i..t + 1] == times[i..t] + [times[t]];
      row := row + [TimeButton(times[t])];
      t := t + 1;
    }
  }

  /**
   * The rows built once `i` labels (a multiple of four, possibly past the
   * end) have been taken: every row full but perhaps the last.
   */
  predicate RowsSoFar(times: seq<string>, rows: Keyboard, i: nat) {
    var done := if i <= |times| then i else |times|;
    && i % 4 == 0 && (i <= |times| || |times| < i < |times| + 4)
    && |rows| == i / 4
    && Flatten(rows) == TimeButtons(times[..done])
    && (forall r :: 0 <= r < |rows| ==> 1 <= |rows[r]| <= 4)
    && (i <= |times| ==> forall r :: 0 <= r < |rows| ==> |rows[r]| == 4)
    && (i > |times| ==> forall r :: 0 <= r < |rows| - 1 ==> |rows[r]| == 4)
  }

  lemma RowsStep(times: seq<string>, rows: Keyboard, row: seq<Button>, i: nat, end: nat)
    requires RowsSoFar(times, rows, i) && i < |times|
    requires end == if i + 4 <= |times| then i + 4 else |times|
    requires row == TimeButtons(times[i..end])
    ensures RowsSoFar(times, rows + [row], i + 4)
  {
    var rows' := rows + [row];
    assert Flatten(rows') == TimeButtons(times[..end]) by {
      FlattenAppend(rows, row);
      assert times[..end] == times[..i] + times[i..end];
      TimeButtonsConcat(times[..i], times[i..end]);
    }
    assert forall r :: 0 <= r < |rows'| ==> 1 <= |rows'[r]| <= 4 by {
      forall r | 0 <= r < |rows'| ensures 1 <= |rows'[r]| <= 4 {
        if r < |rows| { assert rows'[r] == rows[r]; }
      }
    }
    if i + 4 <= |times| {
      forall r | 0 <= r < |rows'| ensures |rows'[r]| == 4 {
        if r < |rows| { assert rows'[r] == rows[r]; }
      }
    } else {
      forall r | 0 <= r < |rows'| - 1 ensures |rows'[r]| == 4 {
        assert rows'[r] == rows[r];
      }
    }
  }

  lemma TimeButtonsConcat(a: seq<string>, b: seq<string>)
    ensures TimeButtons(a + b) == TimeButtons(a) + TimeButtons(b)
  {
  }

  /** The fixed row of popular times. */
  const PopularRow := [
    Button("🌅 09:00", "time:09:00"),
    Button("☀️ 12:00", "time:12:00"),
    Button("🌇 18:00", "time:18:00"),
    Button("🌙 23:59", "time:23:59")
  ]

  /** `build_time_kb`: the slot rows, the popular times, then cancel. */
  method BuildTimeKb(step: nat) returns (kb: Keyboard)
    requires step > 0
    ensures |kb| >= 2
    ensures Flatten(kb[..|kb| - 2]) == TimeButtons(Slots(step))
    ensures forall r :: 0 <= r < |kb| - 2 ==> 1 <= |kb[r]| <= 4
    ensures kb[|kb| - 2] == PopularRow && kb[|kb| - 1] == CancelRow
  {
    var times := TimeSlots(step);
    var rows := TimeRows(times);
    kb := rows + [PopularRow] + [CancelRow];
    assert kb[..|kb| - 2] == rows;
  }

  // ---------------------------------------------------------------- month keyboard

  const WeekdayNames := ["Пн", "Вт", "Ср", "Чт", "Пт", "Сб", "Вс"]

  const WeekdayRow := seq(7, i requires 0 <= i < 7 => Button(WeekdayNames[i], Ignore))

  /** "cal:YYYY-MM-DD", the callback of a day that can be picked. */
  function DayCallback(y: int, m: int, day: int): string
    requires MinYear <= y <= MaxYear && 1 <= m <= 12 && 0 <= day <= 31
  {
    "cal:" + DateText(y, m, day)
  }

  /** The button of one grid cell (0 is padding) of month m of year y, seen on `today`. */
  function DayButton(y: int, m: int, day: nat, today: Date): Button
    requires MinYear <= y <= MaxYear && 1 <= m <= 12 && day <= 31
  {
    if day == 0 then Button(" ", Ignore)
    else if Before(Date(y, m, day), today) then Button("·", Ignore)
    else if Date(y, m, day) == today then Button("[" + NatToString(day) + "]", DayCallback(y, m, day))
    else Button(NatToString(day), DayCallback(y, m, day))
  }

  /** Previous month, the month's name and year, next month. */
  function HeaderRow(y: int, m: int, monthName: string): (r: seq<Button>)
    requires MinYear <= y <= MaxYear && 1 <= m <= 12
    ensures |r| == 3 && StartsWith(r[0].callback, "cal:") && StartsWith(r[2].callback, "cal:")
  {
    var ym := YearMonthText(y, m);
    assert ("cal:prev:" + ym)[..4] == "cal:" && ("cal:next:" + ym)[..4] == "cal:";
    [ Button("◀", "cal:prev:" + ym),
      Button(monthName, Ignore),
      Button("▶", "cal:next:" + ym) ]
  }

  /** Shortcuts for today and tomorrow. */
  function FooterRow(today: Date): seq<Button>
    requires ValidDate(today) && today != LastDate
  {
    [ Button("📅 Сегодня", "cal:" + IsoDate(today)),
      Button("📆 Завтра", "cal:" + IsoDate(NextDay(today))) ]
  }

  /**
   * `build_calendar_kb` for the month of `current_date`, given as its year
   * and month; the localised "%B %Y" title is the parameter `monthName`. On
   * 9999-12-31 the "tomorrow" shortcut overflows `date`, and the call fails.
   */
  method BuildCalendarKb(y: int, m: int, monthName: string, today: Date) returns (kb: Option<Keyboard>)
    requires MinYear <= y <= MaxYear && 1 <= m <= 12
    requires ValidDate(today)
    ensures kb.None? <==> today == LastDate
    ensures kb.Some? ==> |kb.value| == |MonthGrid(y, m)| + 4
    ensures kb.Some? ==> kb.value[0] == HeaderRow(y, m, monthName) && kb.value[1] == WeekdayRow
    ensures kb.Some? ==> forall r :: 2 <= r < |kb.value| - 2 ==> |kb.value[r]| == 7
    ensures kb.Some? ==> forall w, i :: 0 <= w < |MonthGrid(y, m)| && 0 <= i < 7 ==>
      kb.value[w + 2][i] == DayButton(y, m, MonthGrid(y, m)[w][i], today)
    ensures kb.Some? ==> kb.value[|kb.value| - 2] == FooterRow(today) && kb.value[|kb.value| - 1] == CancelRow
  {
    var weeks := WeekRows(y, m, today);
    if today == LastDate {
      return None;
    }
    kb := Some([HeaderRow(y, m, monthName), WeekdayRow] + weeks + [FooterRow(today), CancelRow]);
  }

  /** The loop over `calendar.monthcalendar`: one row of seven day buttons per week. */
  method WeekRows(y: int, m: int, today: Date) returns (rows: Keyboard)
    requires MinYear <= y <= MaxYear && 1 <= m <= 12
    ensures |rows| == |MonthGrid(y, m)|
    ensures forall r :: 0 <= r < |rows| ==> |rows[r]| == 7
    ensures forall w, i :: 0 <= w < |MonthGrid(y, m)| && 0 <= i < 7 ==>
      rows[w][i] == DayButton(y, m, MonthGrid(y, m)[w][i], today)
  {
    var grid := MonthGrid(y, m);
    rows := [];
    var w := 0;
    while w < |grid|
      invariant 0 <= w <= |grid| && |rows| == w
      invariant forall r :: 0 <= r < |rows| ==> |rows[r]| == 7
      invariant forall v, i :: 0 <= v < w && 0 <= i < 7 ==> rows[v][i] == DayButton(y, m, grid[v][i], today)
    {
      var week := grid[w];
      var row := [];
      var i := 0;
      while i < |week|
        invariant 0 <= i <= |week| && |row| == i
        invariant forall c :: 0 <= c < i ==> row[c] == DayButton(y, m, week[c], today)
      {
        var day := week[i];
        if day == 0 {
          row := row + [Button(" ", Ignore)];
        } else {
          var date := Date(y, m, day);
          if Before(date, today) {
            row := row + [Button("·", Ignore)];
          } else if date == today {
            row := row + [Button("[" + NatToString(day) + "]", "cal:" + DateText(y, m, day))];
          } else {
            row := row + [Button(NatToString(day), "cal:" + DateText(y, m, day))];
          }
        }
        i := i + 1;
      }
      rows := rows + [row];
      w := w + 1;
    }
  }

  // ---------------------------------------------------------------- what can be picked

  lemma DayCallbackNotIgnore(y: int, m: int, day: int)
    requires MinYear <= y <= MaxYear && 1 <= m <= 12 && 0 <= day <= 31
    ensures DayCallback(y, m, day) != Ignore
  {
    assert DayCallback(y, m, day)[4] == DateText(y, m, day)[0];
  }

  /** Different days of a month have different callbacks. */
  lemma DayCallbackInjective(y: int, m: int, d1: int, d2: int)
    requires MinYear <= y <= MaxYear && 1 <= m <= 12 && 0 <= d1 <= 31 && 0 <= d2 <= 31
    requires DayCallback(y, m, d1) == DayCallback(y, m, d2)
    ensures d1 == d2
  {
    assert DayCallback(y, m, d1)[12..] == Pad2(d1);
    assert DayCallback(y, m, d2)[12..] == Pad2(d2);
  }

  /**
   * A cell can be picked exactly when it holds a day of the month that is not
   * before today; its callback then names that date.
   */
  lemma PickableCell(y: int, m: int, today: Date, w: int, i: int)
    requires MinYear <= y <= MaxYear && 1 <= m <= 12
    requires 0 <= w < |MonthGrid(y, m)| && 0 <= i < 7
    ensures var d := MonthGrid(y, m)[w][i]; var b := DayButton(y, m, d, today);
      b.callback != Ignore <==> d != 0 && !Before(Date(y, m, d), today)
    ensures var d := MonthGrid(y, m)[w][i]; var b := DayButton(y, m, d, today);
      b.callback != Ignore ==>
        && ValidDate(Date(y, m, d)) && b.callback == "cal:" + IsoDate(Date(y, m, d))
        && (b.text == "[" + NatToString(d) + "]" <==> Date(y, m, d) == today)
  {
    var d := MonthGrid(y, m)[w][i];
    if d != 0 {
      GridDayColumn(y, m, w, i);
      DayCallbackNotIgnore(y, m, d);
      var s := NatToString(d);
      assert ("[" + s + "]")[0] == '[' && s[0] != '[';
    }
  }

  /** Every day of the month from today on can be picked, in exactly one cell. */
  lemma RemainingDayOffered(y: int, m: int, today: Date, d: int) returns (w: nat, i: nat)
    requires ValidDate(Date(y, m, d)) && !Before(Date(y, m, d), today)
    ensures w < |MonthGrid(y, m)| && i < 7
    ensures DayButton(y, m, MonthGrid(y, m)[w][i], today).callback == DayCallback(y, m, d)
    ensures forall v, j ::
      (0 <= v < |MonthGrid(y, m)| && 0 <= j < 7 &&
       DayButton(y, m, MonthGrid(y, m)[v][j], today).callback == DayCallback(y, m, d)) ==> v == w && j == i
  {
    w, i := GridHasDay(y, m, d);
    forall v, j | 0 <= v < |MonthGrid(y, m)| && 0 <= j < 7 &&
      DayButton(y, m, MonthGrid(y, m)[v][j], today).callback == DayCallback(y, m, d)
      ensures v == w && j == i
    {
      var e := MonthGrid(y, m)[v][j];
      DayCallbackNotIgnore(y, m, d);
      DayCallbackInjective(y, m, e, d);
      GridDaysDistinct(y, m, v, j, w, i);
    }
  }

  /**
   * `time_callback` joins the picked day's date and the picked slot's time
   * and reads them back with `strptime("%Y-%m-%d %H:%M")`: the result is
   * that day at that time.
   */
  lemma PickedDeadline(y: int, m: int, today: Date, w: int, i: int, step: nat, k: nat)
    requires 1000 <= y <= MaxYear && 1 <= m <= 12
    requires 0 <= w < |MonthGrid(y, m)| && 0 <= i < 7
    requires DayButton(y, m, MonthGrid(y, m)[w][i], today).callback != Ignore
    requires step > 0 && k < 24 * SlotsPerHour(step)
    ensures var d := MonthGrid(y, m)[w][i];
      ParseDateTime(DayButton(y, m, d, today).callback[4..] + " " + TimeButton(Slots(step)[k]).callback[5..])
        == Some(Moment(Date(y, m, d), SlotTime(step, k).0, SlotTime(step, k).1))
  {
    var d := MonthGrid(y, m)[w][i];
    PickableCell(y, m, today, w, i);
    var (h, mm) := SlotTime(step, k);
    var date := Date(y, m, d);
    assert DayButton(y, m, d, today).callback[4..] == IsoDate(date);
    assert TimeButton(Slots(step)[k]).callback[5..] == ClockText(h, mm);
    assert IsoDate(date) + " " + ClockText(h, mm) == IsoDate(date) + (" " + ClockText(h, mm));
    ParseDateTimeOf(date, h, mm);
  }
}
