/**
 * `parse_deadline` (bot/services/datetime.py): a deadline typed by a user as
 * "YYYY-MM-DD HH:MM", "YYYY-MM-DD" or "HH:MM". The clock reading `now` is a
 * parameter and times are whole minutes in the bot's zone.
 */
module Deadline {
  import opened Wrappers
  import opened Text
  import opened Dates

  /** A zone-local date and time to the minute. */
  datatype Moment = Moment(date: Date, hour: int, minute: int)

  predicate ValidMoment(t: Moment) {
    ValidDate(t.date) && 0 <= t.hour < 24 && 0 <= t.minute < 60
  }

  function MinuteOfDay(t: Moment): int {
    t.hour * 60 + t.minute
  }

  /** `a < b` on moments. */
  predicate Earlier(a: Moment, b: Moment) {
    Before(a.date, b.date) || (a.date == b.date && MinuteOfDay(a) < MinuteOfDay(b))
  }

  // ---------------------------------------------------------------- strptime fields

  /** Length of the leading run of blanks (the `\s+` that a space in the format stands for). */
  function LeadingSpaces(s: string): (n: nat)
    ensures n <= |s| && AllSpace(s[..n]) && (n == |s| || !IsSpace(s[n]))
  {
    if s == [] || !IsSpace(s[0]) then 0 else 1 + LeadingSpaces(s[1..])
  }

  /** Year and month read by `%Y-%m-`, with the text after the second dash. */
  datatype YearMonth = YearMonth(year: int, month: int, rest: string)

  /**
   * `%Y` takes exactly four digits; `%m` takes one or two digits worth 1..12,
   * and since a dash must follow, the whole digit run.
   */
  function ParseYearMonth(a: string): (r: Option<YearMonth>)
    ensures r.Some? ==> 0 <= r.value.year <= 9999 && 1 <= r.value.month <= 12
  {
    if |a| < 5 || !AllDigits(a[..4]) || a[4] != '-' then None
    else
      var s := a[5..];
      var k := LeadingDigits(s);
      if 1 <= k <= 2 && k < |s| && s[k] == '-' && 1 <= DigitsValue(s[..k]) <= 12 then
        DigitsValueBound(a[..4]);
        Some(YearMonth(DigitsValue(a[..4]), DigitsValue(s[..k]), s[k + 1..]))
      else None
  }

  /**
   * `%d`: one or two digits worth 1..31, or a blank and a digit 1..9. Returns
   * the day and the text after it.
   */
  function ParseDay(s: string): (r: Option<(int, string)>)
    ensures r.Some? ==> 1 <= r.value.0 <= 31 && |r.value.1| < |s|
  {
    if |s| >= 2 && s[0] == ' ' && '1' <= s[1] <= '9' then Some((DigitValue(s[1]), s[2..]))
    else
      var k := LeadingDigits(s);
      if 1 <= k <= 2 && 1 <= DigitsValue(s[..k]) <= 31 then Some((DigitsValue(s[..k]), s[k..]))
      else None
  }

  /** A whole string of one or two digits worth at most `max`. */
  function ParseSmallField(s: string, max: int): (r: Option<int>)
    ensures r.Some? ==> 0 <= r.value <= max
  {
    if 1 <= |s| <= 2 && AllDigits(s) && DigitsValue(s) <= max then Some(DigitsValue(s)) else None
  }

  /** The `datetime` constructor's range check. */
  function MakeMoment(year: int, month: int, day: int, hour: int, minute: int): (r: Option<Moment>)
    requires 1 <= month <= 12 && 0 <= year <= 9999 && 0 <= hour < 24 && 0 <= minute < 60
    ensures r.Some? ==> ValidMoment(r.value)
  {
    if year >= MinYear && 1 <= day <= DaysInMonth(year, month)
    then Some(Moment(Date(year, month, day), hour, minute))
    else None
  }

  /** `datetime.strptime(a, "%Y-%m-%d %H:%M")`. */
  function ParseDateTime(a: string): (r: Option<Moment>)
    ensures r.Some? ==> ValidMoment(r.value)
  {
    match ParseYearMonth(a)
    case None => None
    case Some(ym) =>
      match ParseDay(ym.rest)
      case None => None
      case Some((day, s)) =>
        var w := LeadingSpaces(s);
        var t := s[w..];
        var k := LeadingDigits(t);
        if w >= 1 && 1 <= k <= 2 && k < |t| && t[k] == ':' && DigitsValue(t[..k]) <= 23 then
          match ParseSmallField(t[k + 1..], 59)
          case None => None
          case Some(minute) => MakeMoment(ym.year, ym.month, day, DigitsValue(t[..k]), minute)
        else None
  }

  /** `datetime.strptime(a, "%Y-%m-%d")`. */
  function ParseDate(a: string): (r: Option<Date>)
    ensures r.Some? ==> ValidDate(r.value)
  {
    match ParseYearMonth(a)
    case None => None
    case Some(ym) =>
      match ParseDay(ym.rest)
      case None => None
      case Some((day, s)) =>
        if s == [] && ym.year >= MinYear && day <= DaysInMonth(ym.year, ym.month)
        then Some(Date(ym.year, ym.month, day))
        else None
  }

  /**
   * The "HH:MM" branch: `map(int, a.split(":"))` must give exactly two integers,
   * `now.replace` accepts only an hour 0..23 and a minute 0..59, and a time not
   * after `now` moves to the next day; at `date.max` that step overflows and the
   * error is swallowed.
   */
  function ParseClock(a: string, now: Moment): (r: Option<Moment>)
    requires ValidMoment(now)
    ensures r.Some? ==> ValidMoment(r.value) && Earlier(now, r.value)
    ensures ':' !in a ==> r.None?
  {
    var parts := SplitOn(a, ':');
    if |parts| != 2 then None
    else
      match (PyInt(parts[0]), PyInt(parts[1]))
      case (Some(hh), Some(mm)) =>
        if 0 <= hh < 24 && 0 <= mm < 60 then NextOccurrence(now, hh, mm) else None
      case _ => None
  }

  /** `now.replace(hour=hh, minute=mm, second=0)`, plus one day if that is not after `now`. */
  function NextOccurrence(now: Moment, hh: int, mm: int): (r: Option<Moment>)
    requires ValidMoment(now) && 0 <= hh < 24 && 0 <= mm < 60
    ensures r.Some? ==> ValidMoment(r.value) && Earlier(now, r.value) && r.value.hour == hh && r.value.minute == mm
    ensures r.None? <==> now.date == LastDate && !Earlier(now, Moment(now.date, hh, mm))
  {
    var candidate := Moment(now.date, hh, mm);
    if !Earlier(now, candidate) then
      if now.date == LastDate then None else Some(Moment(NextDay(now.date), hh, mm))
    else Some(candidate)
  }

  /** `parse_deadline(args, tz)` with the clock reading `now` in that zone. */
  function ParseDeadline(args: string, now: Moment): (r: Option<Moment>)
    requires ValidMoment(now)
    ensures r.Some? ==> ValidMoment(r.value)
  {
    ParseStripped(Strip(args), now)
  }

  /** The three formats, in the order they are tried, on the stripped argument. */
  function ParseStripped(a: string, now: Moment): (r: Option<Moment>)
    requires ValidMoment(now)
    ensures r.Some? ==> ValidMoment(r.value)
    ensures r.Some? && ParseYearMonth(a).None? ==> Earlier(now, r.value)
  {
    match ParseDateTime(a)
    case Some(t) => Some(t)
    case None =>
      match ParseDate(a)
      case Some(d) => Some(Moment(d, 23, 59))
      case None => ParseClock(a, now)
  }

  // ---------------------------------------------------------------- field lemmas

  lemma YearMonthOf(y: int, m: int, rest: string)
    requires 1000 <= y <= MaxYear && 1 <= m <= 12
    ensures ParseYearMonth(YearMonthText(y, m) + "-" + rest) == Some(YearMonth(y, m, rest))
  {
    var a := YearMonthText(y, m) + "-" + rest;
    assert a[..4] == Pad4(y);
    var s := a[5..];
    assert s == Pad2(m) + ("-" + rest);
    LeadingDigitsOf(Pad2(m), "-" + rest);
    assert s[..2] == Pad2(m);
    assert s[3..] == rest;
  }

  lemma DayOf(d: int, rest: string)
    requires 1 <= d <= 31 && (rest == [] || !IsDigit(rest[0]))
    ensures ParseDay(Pad2(d) + rest) == Some((d, rest))
  {
    var s := Pad2(d) + rest;
    LeadingDigitsOf(Pad2(d), rest);
    assert s[..2] == Pad2(d);
    assert s[2..] == rest;
  }

  /** The part of "YYYY-MM-DD HH:MM" after the day. */
  lemma ClockTailOf(h: int, m: int)
    requires 0 <= h < 24 && 0 <= m < 60
    ensures var s := " " + ClockText(h, m);
      LeadingSpaces(s) == 1 && LeadingDigits(s[1..]) == 2 && s[1..][2] == ':' &&
      DigitsValue(s[1..][..2]) == h && s[1..][3..] == Pad2(m)
  {
    var s := " " + ClockText(h, m);
    assert s[1..] == Pad2(h) + (":" + Pad2(m));
    assert !IsSpace(s[1]);
    LeadingDigitsOf(Pad2(h), ":" + Pad2(m));
    assert s[1..][..2] == Pad2(h);
  }

  // ---------------------------------------------------------------- round trips

  lemma ParseDateTimeOf(d: Date, h: int, m: int)
    requires ValidDate(d) && d.year >= 1000 && 0 <= h < 24 && 0 <= m < 60
    ensures ParseDateTime(IsoDate(d) + (" " + ClockText(h, m))) == Some(Moment(d, h, m))
  {
    var tail := " " + ClockText(h, m);
    var a := IsoDate(d) + tail;
    assert a == YearMonthText(d.year, d.month) + "-" + (Pad2(d.day) + tail);
    YearMonthOf(d.year, d.month, Pad2(d.day) + tail);
    DayOf(d.day, tail);
    ClockTailOf(h, m);
    var t := tail[1..];
    assert ParseSmallField(t[3..], 59) == Some(m);
    assert MakeMoment(d.year, d.month, d.day, h, m) == Some(Moment(d, h, m));
  }

  /** An argument with no blank at either end is parsed as it stands. */
  lemma TrimmedArgument(a: string, now: Moment)
    requires a == [] || (!IsSpace(a[0]) && !IsSpace(a[|a| - 1]))
    requires ValidMoment(now)
    ensures ParseDeadline(a, now) == ParseStripped(a, now)
  {
    StripKeepsTrimmed(a);
  }

  /** "YYYY-MM-DD HH:MM" yields exactly those fields. */
  lemma DateTimeRoundTrip(d: Date, h: int, m: int, now: Moment)
    requires ValidDate(d) && d.year >= 1000 && 0 <= h < 24 && 0 <= m < 60 && ValidMoment(now)
    ensures ParseDeadline(IsoDate(d) + " " + ClockText(h, m), now) == Some(Moment(d, h, m))
  {
    var a := IsoDate(d) + " " + ClockText(h, m);
    assert a == IsoDate(d) + (" " + ClockText(h, m));
    assert a[0] == IsoDate(d)[0] && a[|a| - 1] == ClockText(h, m)[4];
    TrimmedArgument(a, now);
    ParseDateTimeOf(d, h, m);
  }

  lemma ParseDateText(y: int, m: int, day: int)
    requires 1000 <= y <= MaxYear && 1 <= m <= 12 && 1 <= day <= 31
    ensures ParseDateTime(DateText(y, m, day)) == None
    ensures ParseDate(DateText(y, m, day)) ==
      if day <= DaysInMonth(y, m) then Some(Date(y, m, day)) else None
  {
    var a := DateText(y, m, day);
    assert a == YearMonthText(y, m) + "-" + (Pad2(day) + []);
    YearMonthOf(y, m, Pad2(day) + []);
    DayOf(day, []);
  }

  lemma DateTextHasNoColon(y: int, m: int, day: int)
    requires MinYear <= y <= MaxYear && 0 <= m < 100 && 0 <= day < 100
    ensures ':' !in DateText(y, m, day)
  {
    var a := DateText(y, m, day);
    forall i | 0 <= i < |a|
      ensures a[i] != ':'
    {
      if i < 4 {
        assert a[i] == Pad4(y)[i];
      } else if 5 <= i < 7 {
        assert a[i] == Pad2(m)[i - 5];
      } else if i >= 8 {
        assert a[i] == Pad2(day)[i - 8];
      }
    }
  }

  lemma NoColonNotClock(a: string, now: Moment)
    requires ':' !in a && ValidMoment(now)
    ensures ParseClock(a, now) == None
  {
  }

  /**
   * "YYYY-MM-DD" yields that date at 23:59 when the day exists in that month,
   * and is rejected when it does not ("2025-02-30").
   */
  lemma DateTextResult(y: int, m: int, day: int, now: Moment)
    requires 1000 <= y <= MaxYear && 1 <= m <= 12 && 1 <= day <= 31 && ValidMoment(now)
    ensures ParseDeadline(DateText(y, m, day), now) ==
      if day <= DaysInMonth(y, m) then Some(Moment(Date(y, m, day), 23, 59)) else None
  {
    var a := DateText(y, m, day);
    TrimmedArgument(a, now);
    ParseDateText(y, m, day);
    DateTextHasNoColon(y, m, day);
    NoColonNotClock(a, now);
  }

  /** "YYYY-MM-DD" written by `strftime` reads back as that date at 23:59. */
  lemma DateRoundTrip(d: Date, now: Moment)
    requires ValidDate(d) && d.year >= 1000 && ValidMoment(now)
    ensures ParseDeadline(IsoDate(d), now) == Some(Moment(d, 23, 59))
  {
    DateTextResult(d.year, d.month, d.day, now);
  }

  /** The clock reading `now` moved one day on, `now + timedelta(days=1)`. */
  function DayLater(now: Moment): (r: Moment)
    requires ValidMoment(now) && now.date != LastDate
    ensures ValidMoment(r)
  {
    Moment(NextDay(now.date), now.hour, now.minute)
  }

  lemma BeforeTotal(a: Date, b: Date)
    ensures Before(a, b) || a == b || Before(b, a)
  {
  }

  /** Any date after `d` is its successor or after it. */
  lemma AfterMeansNextOrLater(d: Date, e: Date)
    requires ValidDate(d) && d != LastDate && ValidDate(e) && Before(d, e)
    ensures e == NextDay(d) || Before(NextDay(d), e)
  {
    NextDayIsImmediate(d, e);
    BeforeTotal(e, NextDay(d));
  }

  /**
   * A time of day gives its next occurrence after `now`: a valid moment with
   * that time, strictly later than `now`, no later than the same clock reading
   * tomorrow, and with no moment of the same time between `now` and it. Only at
   * `date.max` is there none.
   */
  lemma NextOccurrenceIsNext(now: Moment, hh: int, mm: int, t: Moment)
    requires ValidMoment(now) && 0 <= hh < 24 && 0 <= mm < 60
    ensures NextOccurrence(now, hh, mm).None? <==>
      now.date == LastDate && !Earlier(now, Moment(now.date, hh, mm))
    ensures NextOccurrence(now, hh, mm).Some? ==>
      var r := NextOccurrence(now, hh, mm).value;
      && ValidMoment(r) && r.hour == hh && r.minute == mm
      && Earlier(now, r)
      && (r.date == now.date || r.date == NextDay(now.date))
      && (now.date != LastDate ==> !Earlier(DayLater(now), r))
      && (ValidMoment(t) && t.hour == hh && t.minute == mm && Earlier(now, t) ==> !Earlier(t, r))
  {
    if NextOccurrence(now, hh, mm).Some? {
      var r := NextOccurrence(now, hh, mm).value;
      if r.date != now.date && ValidMoment(t) && Earlier(now, t) && t.hour == hh && t.minute == mm {
        AfterMeansNextOrLater(now.date, t.date);
      }
    }
  }

  lemma ClockTextNotADate(h: int, m: int)
    requires 0 <= h < 100 && 0 <= m < 100
    ensures ParseYearMonth(ClockText(h, m)) == None
  {
    var a := ClockText(h, m);
    assert a[..4][2] == ':';
  }

  lemma SplitClockText(h: int, m: int)
    requires 0 <= h < 100 && 0 <= m < 100
    ensures SplitOn(ClockText(h, m), ':') == [Pad2(h), Pad2(m)]
  {
    var a := ClockText(h, m);
    assert a == Pad2(h) + [':'] + Pad2(m);
    assert ':' !in Pad2(h) && ':' !in Pad2(m);
    assert IndexOf(a, ':') == 2;
    assert a[..2] == Pad2(h) && a[3..] == Pad2(m);
  }

  lemma ParseClockText(h: int, m: int, now: Moment)
    requires 0 <= h < 100 && 0 <= m < 100 && ValidMoment(now)
    ensures ParseClock(ClockText(h, m), now) ==
      if h < 24 && m < 60 then NextOccurrence(now, h, m) else None
  {
    SplitClockText(h, m);
    PyIntOfDigits(Pad2(h));
    PyIntOfDigits(Pad2(m));
  }

  /** Text without the "YYYY-M" start can only be read as a time of day. */
  lemma NotADateMeansClock(a: string, now: Moment)
    requires ParseYearMonth(a) == None && ValidMoment(now)
    ensures ParseStripped(a, now) == ParseClock(a, now)
  {
  }

  /**
   * "HH:MM" reads as the next occurrence of that time when the hour is at most
   * 23 and the minute at most 59, and is rejected otherwise.
   */
  lemma ClockRoundTrip(h: int, m: int, now: Moment)
    requires 0 <= h < 100 && 0 <= m < 100 && ValidMoment(now)
    ensures ParseDeadline(ClockText(h, m), now) ==
      if h < 24 && m < 60 then NextOccurrence(now, h, m) else None
  {
    var a := ClockText(h, m);
    TrimmedArgument(a, now);
    ClockTextNotADate(h, m);
    NotADateMeansClock(a, now);
    ParseClockText(h, m, now);
  }

  /** Blanks around the argument are ignored. */
  lemma SurroundingBlanksIgnored(w1: string, s: string, w2: string, now: Moment)
    requires AllSpace(w1) && AllSpace(w2) && ValidMoment(now)
    ensures ParseDeadline(w1 + s + w2, now) == ParseDeadline(s, now)
  {
    StripIgnoresPadding(w1, s, w2);
    StripIgnoresPadding([], s, []);
    assert [] + s + [] == s;
  }

  // ---------------------------------------------------------------- rejected inputs

  /** The empty argument is rejected. */
  lemma EmptyRejected(now: Moment)
    requires ValidMoment(now)
    ensures ParseDeadline("", now) == None
  {
    TrimmedArgument("", now);
    NotADateMeansClock("", now);
    assert SplitOn("", ':') == [""];
  }

  lemma InvalidWordShape()
    ensures ':' !in "invalid" && !AllDigits("invalid"[..4])
  {
    assert !IsDigit("invalid"[..4][0]);
  }

  /** A plain word is rejected. */
  lemma WordRejected(now: Moment)
    requires ValidMoment(now)
    ensures ParseDeadline("invalid", now) == None
  {
    var w := "invalid";
    InvalidWordShape();
    TrimmedArgument(w, now);
    NotADateMeansClock(w, now);
    NoColonNotClock(w, now);
  }

  lemma ExampleTexts()
    ensures ClockText(25, 0) == "25:00"
    ensures DateText(2025, 13, 1) == "2025-13-01"
    ensures DateText(2025, 2, 30) == "2025-02-30"
  {
  }

  /** Hour 25 is out of range. */
  lemma HourOutOfRangeRejected(now: Moment)
    requires ValidMoment(now)
    ensures ParseDeadline("25:00", now) == None
  {
    ClockRoundTrip(25, 0, now);
    ExampleTexts();
  }

  /** A month number above 12, "2025-13-01", is rejected. */
  lemma MonthOutOfRangeRejected(y: int, m: int, day: int, now: Moment)
    requires 1000 <= y <= MaxYear && 12 < m < 100 && 0 <= day < 100 && ValidMoment(now)
    ensures ParseDeadline(DateText(y, m, day), now) == None
  {
    var a := DateText(y, m, day);
    TrimmedArgument(a, now);
    MonthOutOfRangeNotAMonth(y, m, day);
    NotADateMeansClock(a, now);
    DateTextHasNoColon(y, m, day);
    NoColonNotClock(a, now);
  }

  lemma MonthOutOfRangeNotAMonth(y: int, m: int, day: int)
    requires 1000 <= y <= MaxYear && 12 < m < 100 && 0 <= day < 100
    ensures ParseYearMonth(DateText(y, m, day)) == None
  {
    var a := DateText(y, m, day);
    assert a[5..] == Pad2(m) + ("-" + Pad2(day));
    LeadingDigitsOf(Pad2(m), "-" + Pad2(day));
    assert a[5..][..2] == Pad2(m);
  }

  /** The rejected examples of the parser's own tests. */
  lemma RejectedExamples(now: Moment)
    requires ValidMoment(now)
    ensures ParseDeadline("2025-13-01", now) == None
    ensures ParseDeadline("2025-02-30", now) == None
  {
    ExampleTexts();
    MonthOutOfRangeRejected(2025, 13, 1, now);
    DateTextResult(2025, 2, 30, now);
  }
}
