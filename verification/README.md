# Task bot and organisation admin — a Dafny model

The system is a Telegram task bot for project groups plus a Django admin that
keeps the organisation behind it: projects, their Telegram groups, a two-level
tree of departments per project, department staff (`DepartmentMember`) and
project memberships (`ProjectMember`). This project models the logic of that
core and proves what it promises:

- the deadline parser of the bot (`bot/services/datetime.py`): the accepted
  formats, the rolling of a bare "HH:MM" to tomorrow, and a printer whose
  output parses back to the same moment;
- the inline calendar (`bot/handlers/calendar.py`) and its callback data, with
  the month navigation, day cells and time buttons of `bot/main.py`;
- the text helpers of `bot/main.py`: `/newtask` argument splitting and deadline
  scanning, the checklist toggle callbacks (`checklast`), the task markup and
  the resolution of the responsible user with its cache;
- the models of `admin/core/models.py`: department levels and the save rules of
  departments and memberships (rule P1: a department-level membership replaces
  the general one of the same project, user and role), the deadline flags of a
  task and the label of a user;
- the admin of `admin/core/admin.py`: cloning a department tree with its
  staff, the project form's attach/copy/move modes, the two staff formsets
  (per user and per department) with their membership sync, the department
  form's fields and inlines, and the read-only summary of all staff below a
  department (a breadth-first walk folded into one row per user);
- the script `admin/static/admin/js/department_inline_fix.js`, which rewrites
  the "add" links of the sub-department table to carry the parent's id.

The database is a class `Store.Database` whose fields are the tables as maps
from id to row; its methods change them as the ORM calls do, with the tree
rules (parents exist, a parent's id is below its children's, at most two
levels) and the unique constraints as the class invariant. Redis, the clock,
the Telegram API and the HTTP request are values passed in.

## Model

| member | source | states |
|---|---|---|
| Text.Strip | bot/services/datetime.py:7 | `str.strip()` never lengthens the text and leaves no blank at either end |
| Text.StripIgnoresPadding | bot/services/datetime.py:7 | blanks added around a text do not change what `strip` returns |
| Text.Words | bot/main.py:970 | `str.split()` yields non-empty pieces without blanks |
| Text.WordsOfJoin | bot/main.py:970 | splitting blank-free words joined by one blank gives the words back |
| Text.SplitOn | bot/services/datetime.py:19 | `str.split(":")` yields at least one piece and no piece holds the separator |
| Text.JoinSplitOn | bot/services/datetime.py:19 | joining the pieces of `split(sep)` with `sep` gives the text back |
| Text.SplitFirst | bot/main.py:525 | `split(":", 1)`: two pieces exactly when the separator occurs, split at its first occurrence |
| Text.IntToStringRoundTrip | bot/main.py:527 | `int(str(n)) == n` for every integer |
| BotHelpers.NewlinesToSpaces | bot/main.py:47 | `.replace("\n", " ")` keeps the length, leaves no newline and changes no other character |
| BotHelpers.Quote | bot/main.py:46-48 | `_quote`: the result never holds a newline and is at most n characters plus the ellipsis |
| BotHelpers.QuoteKeepsShortLine | bot/main.py:46-48 | a one-line text without surrounding blanks and at most n long is returned unchanged |
| BotHelpers.QuoteCutsLongLine | bot/main.py:46-48 | a longer text becomes its first n characters (newlines as blanks) followed by "…" |
| BotHelpers.TrimText | bot/main.py:333-337 | `_trim_text`: None or "" gives "(no text)"; any other text gives at most `length` characters |
| BotHelpers.TrimTextOfBlanks | bot/main.py:333-337 | a non-empty text of blanks is not "(no text)" but strips to the empty string |
| BotHelpers.TrimTextKeepsShort | bot/main.py:333-337 | a stripped text within the length is returned unchanged |
| BotHelpers.ParseCountArg | bot/main.py:284-296 | `_parse_count_arg`: no text gives the default; otherwise the default, 1, or a value capped at `max_count` |
| BotHelpers.CountArgInRange | bot/main.py:284-296 | with 1 <= default <= max the count always lies in 1..max |
| BotHelpers.CountArgOfCommand | bot/main.py:284-296 | `/cmd N` reads N back, raised to 1 when below and capped at max |
| BotHelpers.CountArgMissing | bot/main.py:287-289 | a command without a second word gives the default |
| BotHelpers.CountArgNotANumber | bot/main.py:290-296 | a second word that `int()` rejects gives the default |
| BotHelpers.ResponseListsIds | bot/main.py:32-37 | `format_task_created_response` quotes one id for a single task, none without ids, otherwise the first five at most (counted by their `#` marks) |
| BotHelpers.SingleResponseNamesId | bot/main.py:33-34 | the single-task reply is its header followed by text that `int()` reads back as the first id |
| BotHelpers.ListResponseNamesIds | bot/main.py:36-37 | the list reply is the count header and caption followed by tags that read back, in order, as `ids[:5]` |
| BotHelpers.TagsReadBack | bot/main.py:36 | the ", "-joined `#id` list splits at its commas into pieces that read back as exactly the ids, in order |
| BotHelpers.HashesInTags | bot/main.py:36 | the joined id list carries exactly one `#` per id |
| BotHelpers.KeysIdentifySession | bot/main.py:40-44 | `_cl_rows_key`/`_cl_sel_key` differ for different (chat, user) pairs and never coincide with each other |
| BotHelpers.RowsKey | bot/main.py:40-41 | `_cl_rows_key`: its ':'-fields are "checklast", the chat id, the user id and "rows" |
| BotHelpers.SelKey | bot/main.py:43-44 | `_cl_sel_key`: its ':'-fields are "checklast", the chat id, the user id and "sel" |
| Checklast.BuildChecklastKb | bot/main.py:339-357 | `build_checklast_kb`: one row per listed message (mark, idx, 40-character quote, toggle callback), then the create row with the selection size, then reset and cancel |
| Checklast.PartitionTailAfter | bot/main.py:1457 | `partition(sep)[2]` returns what follows the first separator when nothing before it can start the separator |
| Checklast.ToggleCallbackRoundTrip | bot/main.py:1457 | the toggle handler reads back exactly the message id the button was built with |
| Checklast.Toggled | bot/main.py:1462-1467 | the toggled selection holds the id iff the old one did not, and agrees on every other id |
| Checklast.Selection.Toggle | bot/main.py:1462-1467 | `checklast_toggle` replaces the stored set by its toggle on the raw id |
| Checklast.Selection.Reset | bot/main.py:1489 | `checklast_reset` empties the set |
| Checklast.ToggleTwice | bot/main.py:1462-1467 | toggling the same id twice restores the selection |
| Checklast.ToggleFlipsMark | bot/main.py:1462-1475 | on a set written by the buttons, a press flips that message's mark in `set(map(int, selected))` and no other |
| Checklast.Picked | bot/main.py:1541 | the comprehension keeps exactly the stored rows whose message id is selected, each no more often than stored |
| Checklast.Insert | bot/main.py:1542 | inserting into an idx-sorted list keeps it sorted and adds exactly the new row |
| Checklast.SortByIdx | bot/main.py:1542 | `sort(key=idx)` yields a sorted permutation |
| Checklast.InsertStable | bot/main.py:1542 | insertion places a row after every row with the same key |
| Checklast.SortStable | bot/main.py:1542 | rows with equal idx keep their relative order |
| Checklast.CreateTakesSelectedInOrder | bot/main.py:1530-1542 | for a sender allowed to assign, `checklast_create` refuses an empty selection and otherwise takes exactly the selected rows, sorted stably by idx |
| Checklast.CreateSelection | bot/main.py:1530-1542 | for a sender allowed to assign: nothing exactly when the selection is empty; otherwise an idx-sorted permutation of the selected stored rows |
| Checklast.Title | bot/main.py:1573 | a cited title has no newline and at most 61 characters |
| Checklast.CreatedTitles | bot/main.py:1557-1573 | one title per row whose insert returned an id, each one line of at most 61 characters |
| Checklast.AllInsertedAllReported | bot/main.py:1557-1573 | when every insert succeeds every row is cited, in order |
| Checklast.SummaryLines | bot/main.py:1581-1583 | the report of several tasks reads: header with the count, blank line, caption, one numbered line per task |
| Checklast.SummaryIsJoin | bot/main.py:1581-1583 | that report is its lines joined by newlines |
| Checklast.SummaryLinesOneLine | bot/main.py:1581-1583 | none of those lines holds a newline |
| Checklast.SingleSummaryLines | bot/main.py:1578-1579 | a single created task is reported as the caption and its numbered quote |
| Checklast.CreateSummary | bot/main.py:1577-1584 | the failure line exactly when no task was created; one task under the single header, more under the count header with their number |
| CalendarKeyboard.SlotsPerHour | bot/handlers/calendar.py:87-92 | an hour holds the least n slots with n·step >= 60, because the minute restarts at 0 |
| CalendarKeyboard.SlotMinuteBound | bot/handlers/calendar.py:89-92 | the j-th minute of an hour stays below 60 exactly while j counts a slot |
| CalendarKeyboard.SlotTime | bot/handlers/calendar.py:87-92 | the k-th slot of the day has hour < 24 and a minute < 60 that is a multiple of the step, and k is recovered from it |
| CalendarKeyboard.TimeSlots | bot/handlers/calendar.py:83-92 | the while loop lists 24·⌈60/step⌉ labels, the "HH:MM" of every slot in order |
| CalendarKeyboard.SlotAt | bot/handlers/calendar.py:87-92 | slot j of hour h sits at index h·n + j of the list |
| CalendarKeyboard.SlotsStartAtMidnight | bot/handlers/calendar.py:84-88 | the first slot is "00:00" |
| CalendarKeyboard.SlotsIncrease | bot/handlers/calendar.py:87-92 | the slots strictly increase through the day |
| CalendarKeyboard.SlotsCoverStepTimes | bot/handlers/calendar.py:87-92 | every time of day whose minute is a multiple of the step is offered |
| CalendarKeyboard.TimeCallbackCarriesLabel | bot/main.py:1671 | `time_callback` reads back the label from `"time:" + label` |
| CalendarKeyboard.TimeRows | bot/handlers/calendar.py:95-102 | the chunking loop makes rows of four (the last may be shorter) that concatenate back to the buttons of the slots |
| CalendarKeyboard.ButtonRow | bot/handlers/calendar.py:96-101 | the inner loop builds one `"time:" + label` button per label of `times[i:i+4]` |
| CalendarKeyboard.RowsStep | bot/handlers/calendar.py:95-102 | one round of the chunking loop keeps every row but the last full |
| CalendarKeyboard.BuildTimeKb | bot/handlers/calendar.py:76-117 | `build_time_kb`: the slot rows, then the 09:00/12:00/18:00/23:59 row, then the cancel row |
| CalendarKeyboard.HeaderRow | bot/handlers/calendar.py:16-20 | the header is three buttons whose arrows carry "cal:" callbacks |
| CalendarKeyboard.BuildCalendarKb | bot/handlers/calendar.py:7-73 | `build_calendar_kb` fails exactly on 9999-12-31, where the "tomorrow" shortcut overflows; otherwise header, weekday row, one 7-cell row per week of the month grid with each cell's button, today/tomorrow footer, cancel |
| CalendarKeyboard.WeekRows | bot/handlers/calendar.py:35-60 | the loop over the month grid makes one row of seven buttons per week, each cell's button as the day rules say |
| CalendarKeyboard.DayCallbackNotIgnore | bot/handlers/calendar.py:50-59 | a day's callback is never "cal:ignore" |
| CalendarKeyboard.DayCallbackInjective | bot/handlers/calendar.py:50-59 | different days of a month have different callbacks |
| CalendarKeyboard.PickableCell | bot/handlers/calendar.py:38-59 | a cell is pickable exactly when it holds a day not before today; padding is " "/"cal:ignore", past days "·", today "[d]", later days "d" |
| CalendarKeyboard.RemainingDayOffered | bot/handlers/calendar.py:35-60 | every day from today on is offered in exactly one cell |
| CalendarKeyboard.PickedDeadline | bot/main.py:1645-1688 | the date of a picked cell and a picked slot read back by `strptime("%Y-%m-%d %H:%M")` give that day at that time |
| CalendarCallback.PrevMonth | bot/main.py:1620-1624 | for a month 1..12, the result is a month 1..12 exactly one month earlier (January wraps to December of the year before) |
| CalendarCallback.NextMonth | bot/main.py:1625-1629 | for a month 1..12, the result is a month 1..12 exactly one month later (December wraps to January of the year after) |
| CalendarCallback.PrevNextInverse | bot/main.py:1620-1629 | previous then next, and next then previous, are the identity |
| CalendarCallback.ColonFields | bot/main.py:1617 | `data.split(":")` of an arrow callback gives exactly ["cal", action, year-month] |
| CalendarCallback.YearMonthFields | bot/main.py:1618 | the header's "%Y-%m" text splits at its dash into the year and month fields |
| CalendarCallback.NavFields | bot/main.py:1617-1618 | an arrow callback of a well-formed month splits into its three fields and its year and month |
| CalendarCallback.HeaderFieldsParse | bot/main.py:1618 | `int` reads back the padded year and month |
| CalendarCallback.NavigateArrow | bot/main.py:1615-1634 | the navigation branch on an arrow of month m of year y shows the previous or next month, or raises when `datetime` cannot represent it |
| CalendarCallback.ArrowDispatch | bot/main.py:1602-1615 | an arrow callback reaches the navigation branch |
| CalendarCallback.ArrowPrefix | bot/main.py:1615 | an arrow callback starts with "cal:prev:" or "cal:next:" |
| CalendarCallback.ArrowNotFixed | bot/main.py:1602-1610 | an arrow callback is neither "cal:cancel" nor "cal:ignore" |
| CalendarCallback.PrevArrowShowsPreviousMonth | bot/main.py:1615-1634 | the "◀" arrow of a month's calendar shows the month before it (raises at the first representable month) |
| CalendarCallback.NextArrowShowsNextMonth | bot/main.py:1615-1634 | the "▶" arrow shows the month after it (raises at the last representable month) |
| CalendarCallback.ArrowsUndoEachOther | bot/main.py:1615-1634 | paging back and then forward returns to the starting month |
| CalendarCallback.DayCellPicksItsDate | bot/main.py:1644-1657 | a day cell's callback stores exactly that day's date text |
| CalendarCallback.Navigate | bot/main.py:1617-1634 | the navigation branch raises or shows a month 1..12 that `datetime` can represent; data without exactly three ':'-fields raises at the unpacking |
| CalendarCallback.CalendarAction | bot/main.py:1597-1645 | exactly "cal:cancel" cancels and "cal:ignore" is ignored; arrows navigate or raise; any other data picks the text after "cal:" as the date |
| Dates.DaysInMonth | bot/handlers/calendar.py:43 | month lengths are 28..31, and 29 only for February of a leap year |
| Dates.NextDay | bot/handlers/calendar.py:65 | `today + timedelta(days=1)` is a valid date after today |
| Dates.NextDayIsImmediate | bot/handlers/calendar.py:65 | no valid date lies strictly between a date and the next day |
| Dates.YearMonthText | bot/handlers/calendar.py:17-19 | `strftime('%Y-%m')` is four digits, a dash and two digits |
| Dates.OrdinalNextDay | bot/handlers/calendar.py:33 | the day ordinal grows by exactly one from a date to the next |
| Dates.WeekdayNextDay | bot/handlers/calendar.py:33 | the weekday advances by one (mod 7) per day |
| Dates.WeekdayInMonth | bot/handlers/calendar.py:33 | within a month, the weekday of day d is the first day's weekday plus d − 1 (mod 7) |
| Dates.MonthGrid | bot/handlers/calendar.py:33 | `calendar.monthcalendar`: weeks of seven cells holding 0 or a day of the month |
| Dates.GridWeeksAreFull | bot/handlers/calendar.py:33-41 | the grid is non-empty and every week has seven cells |
| Dates.GridDayColumn | bot/handlers/calendar.py:33-43 | a non-zero cell is a valid date of the month, in its weekday's column |
| Dates.GridHasDay | bot/handlers/calendar.py:33 | every day of the month appears in the grid |
| Dates.GridDaysDistinct | bot/handlers/calendar.py:33 | no day appears twice |
| Deadline.ParseYearMonth | bot/services/datetime.py:9-11 | the `%Y-%m-` prefix of `strptime`: a year of four digits and a month 1..12 |
| Deadline.ParseDay | bot/services/datetime.py:9-11 | the `%d` directive: a day 1..31, consuming at least one character |
| Deadline.ParseSmallField | bot/services/datetime.py:9-11 | the `%H` and `%M` directives: a one- or two-digit number between 0 and its bound |
| Deadline.MakeMoment | bot/services/datetime.py:11 | the `datetime` range check: only a date that exists in its month is accepted |
| Deadline.ParseDateTime | bot/services/datetime.py:9-11 | `strptime(a, "%Y-%m-%d %H:%M")` gives only valid moments |
| Deadline.ParseDate | bot/services/datetime.py:9-13 | `strptime(a, "%Y-%m-%d")` gives only valid dates |
| Deadline.TrimmedArgument | bot/services/datetime.py:7 | an argument with no blank at either end is parsed exactly as it stands |
| Deadline.SurroundingBlanksIgnored | bot/services/datetime.py:7 | blanks before and after the argument never change the result |
| Deadline.DateTimeRoundTrip | bot/services/datetime.py:9-14 | "YYYY-MM-DD HH:MM" of a valid date and time gives exactly that moment |
| Deadline.DateTextResult | bot/services/datetime.py:9-16 | "YYYY-MM-DD" gives that date at 23:59 when the day exists in that month and is rejected otherwise |
| Deadline.DateRoundTrip | bot/services/datetime.py:12-13 | a valid date written as "YYYY-MM-DD" gives that date at 23:59 |
| Deadline.ParseDeadline | bot/services/datetime.py:4-25 | whatever the argument, a returned deadline is a valid moment |
| Deadline.ParseStripped | bot/services/datetime.py:9-25 | the formats on the stripped text give a valid moment, strictly after now whenever the text does not start like a date |
| Deadline.ParseClock | bot/services/datetime.py:18-25 | the "HH:MM" branch gives only valid moments strictly after now, and nothing for a text without ':' |
| Deadline.NextOccurrence | bot/services/datetime.py:20-23 | a valid moment after now with the given hour and minute; none exactly when today is 9999-12-31 and that time has passed |
| Deadline.NextOccurrenceIsNext | bot/services/datetime.py:20-23 | the clock branch gives the first moment strictly after `now` with that hour and minute, at most one day later; none only when the next day would pass 9999-12-31 |
| Deadline.NotADateMeansClock | bot/services/datetime.py:9-19 | text that does not start like a date is read only as a time of day |
| Deadline.ClockRoundTrip | bot/services/datetime.py:18-25 | "HH:MM" gives the next occurrence of that time when hour ≤ 23 and minute ≤ 59, and is rejected otherwise |
| Deadline.EmptyRejected | tests/test_datetime_parse.py:78 | the empty argument is rejected |
| Deadline.WordRejected | tests/test_datetime_parse.py:75 | a plain word is rejected |
| Deadline.HourOutOfRangeRejected | tests/test_datetime_parse.py:76 | "25:00" is rejected |
| Deadline.MonthOutOfRangeRejected | bot/services/datetime.py:9-25 | "YYYY-MM-DD" with a month above 12 is rejected by every format |
| Deadline.RejectedExamples | tests/test_datetime_parse.py:77 | "2025-13-01" and "2025-02-30" are rejected |
| NewTaskCommand.LStripChar | bot/main.py:975 | `lstrip("@")`: a suffix of the word with every removed character an '@' and no '@' left in front |
| NewTaskCommand.MentionTakenOff | bot/main.py:970-978 | a leading "@name" becomes the explicit assignee and the other words the text |
| NewTaskCommand.ArgumentsOfWords | bot/main.py:970-978 | the words are read exactly when there is one; the first is the mention exactly when it starts with '@', and the text is the words after it, or all of them |
| NewTaskCommand.ShortestFindsNone | bot/main.py:985-991 | the loop finds no deadline exactly when no trailing run of words parses |
| NewTaskCommand.ShortestIsFirstToParse | bot/main.py:985-991 | the loop takes the shortest trailing run of words that parses and the words before it as the text |
| NewTaskCommand.ScanDeadline | bot/main.py:981-991 | the loop with its `break` sets the deadline and text to the shortest parsing run, or leaves both None |
| NewTaskCommand.LongestFindsNone | bot/main.py:985-991 | corrected scan: finds nothing exactly when no trailing run of words parses |
| NewTaskCommand.LongestIsFirstToParse | bot/main.py:985-991 | corrected scan: takes the longest trailing run of words that parses |
| NewTaskCommand.ScanDeadlineLongest | bot/main.py:981-991 | corrected loop, counting the run length down, returns what the longest-first scan finds |
| NewTaskCommand.WordStartNotADate | bot/services/datetime.py:9-16 | a text starting with neither a digit, a sign nor a blank fails both date formats |
| NewTaskCommand.WordStartNotAClock | bot/services/datetime.py:18-25 | such a text also fails the clock branch: `int()` refuses what precedes the ':' |
| NewTaskCommand.LongerSuffixesRejected | bot/main.py:985-991 | behind words that start like words, every run longer than two words fails to parse |
| NewTaskCommand.SuffixFromWordRejected | bot/main.py:986-987 | a run that reaches back into such words does not parse |
| NewTaskCommand.ShortestTakesOnlyTheClock | bot/main.py:985-991 | as written, a trailing "YYYY-MM-DD HH:MM" yields only the clock (today or tomorrow), with the date left in the text |
| NewTaskCommand.LongestStopsAt | bot/main.py:985-991 | the corrected scan returns a run that parses once every longer run has failed |
| NewTaskCommand.LastTwoWords | bot/main.py:986-990 | the last two words joined by a blank form the deadline text and the earlier words the task text |
| NewTaskCommand.OnlyLastTwoCanParse | bot/main.py:985-991 | behind words that start like words, the corrected scan only tries the last two words |
| NewTaskCommand.LongestTakesDateAndTime | bot/main.py:985-991 | corrected, a trailing "YYYY-MM-DD HH:MM" is the deadline and the words before it the text |
| NewTaskCommand.TaskText | bot/main.py:994-995 | the task text is never empty: the found text, else all the words, else "Задача" |
| NewTaskCommand.Schedule | bot/main.py:1025-1074 | with no assignee the reply is the error; otherwise the row has the title cut to 256 characters, the full text as description and the deadline |
| NewTaskCommand.NoDeadlineFails | bot/main.py:998-1004 | as written, a text with no deadline always ends in the error reply (`topic_id` is read before it is assigned) |
| NewTaskCommand.NoDeadlineShowsCalendar | bot/main.py:998-1022 | corrected, the draft is kept and the calendar offered with the first 100 characters of the text |
| NewTaskCommand.InvalidWordExample | bot/main.py:961-1022 | "/newtask invalid": the handler as written fails; the corrected one offers the calendar with "invalid" as the draft |
| NewTaskCommand.DeadlineFoundSchedules | bot/main.py:1024-1074 | once a deadline is found, the command resolves the assignee and inserts the task |
| NewTaskCommand.MentionThenDateTime | bot/main.py:970-978 | "@name words date time" reads as the mention followed by the remaining words |
| NewTaskCommand.DateAndTimeDeadline | bot/main.py:961-1074 | corrected, "@name text YYYY-MM-DD HH:MM" creates the task for that assignee with that text and moment |
| NewTaskCommand.NewTaskReplies | bot/main.py:961-1076 | corrected, for a sender allowed to assign: the usage line exactly without arguments, the error exactly when they hold no word, the calendar only for a non-empty draft, a created task never without description |
| NewTaskCommand.NewTaskWithWords | bot/main.py:970-1074 | corrected, with a word the command offers the calendar, reports no assignee, or creates the task |
| NewTaskCommand.AfterScanShape | bot/main.py:993-1074 | after the scan: the calendar exactly when no deadline was found, for a non-empty draft; a created task carries the found deadline |
| NewTaskCommand.AsWrittenNeverOffersCalendar | bot/main.py:961-1076 | as written, for a sender allowed to assign: the usage line exactly without arguments, never the calendar, and a created task has a description |
| Responsible.DisplayName | bot/main.py:511 | the shown name is never empty: the username, or "id:" and the Telegram id |
| Responsible.UserById | bot/main.py:550-554 | the lookup by id returns a row with that id, and None only when no row has it |
| Responsible.UserByName | bot/main.py:506-510 | the case-insensitive lookup returns a row whose lower-cased name matches, and None only when none does |
| Responsible.LatestWithRole | bot/main.py:567-573 | the member holding the role in the chat's project with the greatest id, or None when nobody holds it |
| Responsible.FirstInDept | bot/main.py:591-617 | the qualifying department member first in `(order_index, id)` order, or None when none qualifies |
| Responsible.BindingUserStep | bot/main.py:547-631 | one binding is tried as a user, then a project role, then a department (lead, tech lead, anyone), as the reference function says |
| Responsible.ResponsibleCache.ResolveResponsible | bot/main.py:501-641 | for bindings in ascending priority, as the query orders them, the answer and the new cache contents are those of the reference resolver |
| Responsible.ScanBindings | bot/main.py:547-631 | the loop over the bindings returns the user of the first one that names a user |
| Responsible.BindingUser | bot/main.py:547-631 | a user found for a binding is a stored user |
| Responsible.BindingUserSource | bot/main.py:549-617 | a found user is the binding's own user, the latest holder of its role, or its department's pick |
| Responsible.FirstBound | bot/main.py:547-631 | the user found through the bindings is a stored user |
| Responsible.ResolveWritesAfterLookup | bot/main.py:515-641 | the cache is written exactly after a binding lookup (no explicit name, a topic, a miss and some binding), and what is written reads back as the answer unless the name is "None" |
| Responsible.ExplicitNameDecides | bot/main.py:505-513 | an explicit name alone decides: a user is found exactly when one has that name ignoring case, and nothing is cached |
| Responsible.FirstBindingWins | bot/main.py:547-631 | a user is found exactly when some binding yields one, and it is the user of the first such binding in priority order |
| Responsible.DirectBindingUser | bot/main.py:549-563 | a binding naming an existing user is answered with that user |
| Responsible.DepartmentFallsBackToTech | bot/main.py:589-607 | a department with no lead is answered by its first-ranked tech lead |
| Responsible.CacheRoundTrip | bot/main.py:520-529 | a cached "id:name" value reads back as the same id and name |
| Responsible.NoneRoundTrip | bot/main.py:524-529 | the cached "None:None" value reads back as nobody |
| Responsible.CacheIsTransparent | bot/main.py:520-641 | a second call while the value is cached returns the first call's answer and writes nothing |
| Responsible.NoneNamedUserLosesName | bot/main.py:528 | a user whose name is the word "None" comes back from the cache without a name |
| Responsible.CacheHit | bot/main.py:521-529 | no value, an empty one or one without ':' is a miss; a name read back is never the text "None" |
| Responsible.CacheKey | bot/main.py:520 | the key's ':'-fields are "responsible", the chat id and the topic id |
| Responsible.CacheKeysDistinct | bot/main.py:520 | different chats or topics never share a key |
| ParentLinkFix.MatchAt | admin/static/admin/js/department_inline_fix.js:14 | a match at a position is the marker "/department/", a run of digits and a slash, and captures those digits |
| ParentLinkFix.MatchCapturesDigitRun | admin/static/admin/js/department_inline_fix.js:14 | `\d+` is greedy: a digit run closed by '/' after the marker is captured whole |
| ParentLinkFix.FirstMatchFrom | admin/static/admin/js/department_inline_fix.js:14 | `match` takes the leftmost position where the expression matches, and finds none only when no position matches |
| ParentLinkFix.ParentId | admin/static/admin/js/department_inline_fix.js:14-16 | the captured id is a non-empty run of digits inside the path, and there is none exactly when the expression matches nowhere |
| ParentLinkFix.ParentIdOfChangePage | admin/static/admin/js/department_inline_fix.js:14-16 | on a change page path the parent id is the digits after "/department/" |
| ParentLinkFix.NoMarkerNoId | admin/static/admin/js/department_inline_fix.js:15 | a path without the marker gives no id |
| ParentLinkFix.PatchGroup | admin/static/admin/js/department_inline_fix.js:10-23 | a group keeps its id and its number of links |
| ParentLinkFix.PatchPage | admin/static/admin/js/department_inline_fix.js:4-25 | the page keeps its number of groups |
| ParentLinkFix.PatchHref | admin/static/admin/js/department_inline_fix.js:14-20 | the href only ever gains a suffix, and changes exactly in a "children" group on a path with an id, when it is non-empty and holds no "parent=" |
| ParentLinkFix.PatchLinks | admin/static/admin/js/department_inline_fix.js:12-22 | the inner `forEach` leaves the group's links as the group patch computes them |
| ParentLinkFix.AdminPage.FixParentLinks | admin/static/admin/js/department_inline_fix.js:2-26 | the two `forEach` loops leave the groups as the page-level patch function computes from the old groups |
| ParentLinkFix.PatchHrefIdempotent | admin/static/admin/js/department_inline_fix.js:19 | patching a link twice equals patching it once |
| ParentLinkFix.PatchPageIdempotent | admin/static/admin/js/department_inline_fix.js:2-26 | running the script twice leaves the page as one run does |
| ParentLinkFix.OnlyChildrenLinksChange | admin/static/admin/js/department_inline_fix.js:8-15 | links outside a "children" group, or on a path with no id, keep their href |
| ParentLinkFix.MarkedLinksKept | admin/static/admin/js/department_inline_fix.js:19 | an empty href, or one already holding "parent=", is kept |
| ParentLinkFix.UnmarkedLinksGainParent | admin/static/admin/js/department_inline_fix.js:19-20 | any other add-link of a children group gains "?parent=<id>" and then holds "parent=" |
| ParentLinkFix.QueryGetsSecondQuestionMark | admin/static/admin/js/department_inline_fix.js:20 | an href that already has a query ends up with a second '?' |
| OrgModels.Level | admin/core/models.py:168-174 | `get_level` is at least 1, and exactly 1 for a department without a parent |
| OrgModels.LevelFrame | admin/core/models.py:168-174 | a level depends only on the chain of parents above the department |
| OrgModels.CleanDepartment | admin/core/models.py:176-202 | `clean` refuses a third level, a child of a department without a project, a root without a project and a changed parent; an accepted child takes its parent's project |
| OrgModels.InheritProject | admin/core/models.py:204-219 | a child without a project inherits its parent's; a parent without one, or a different project, is refused |
| OrgModels.PrepareDepartment | admin/core/models.py:204-221 | `save` before the write: an accepted department has a project, a child only under a root and with its parent's project, and a stored one keeps its parent |
| OrgModels.SavedLevelAtMostTwo | admin/core/models.py:183-185 | a department accepted by `save` sits at level 1 or 2 and the table stays acyclic |
| OrgModels.CleanMember | admin/core/models.py:274-297 | `ProjectMember.clean` refuses a general row exactly when department rows of the same key exist, and accepts exactly when no other row of the key is at the same level |
| OrgModels.DeleteGeneral | admin/core/models.py:302-308 | the delete removes exactly the general rows of the key and keeps every other row unchanged |
| OrgModels.SaveMember | admin/core/models.py:253-309 | the save fails exactly when a unique constraint would be violated; otherwise the row is written, the constraints hold and a department row leaves no general row of its key |
| OrgModels.CleanThenSaveKeepsP1 | admin/core/models.py:274-309 | a row accepted by `clean` and then saved keeps rule P1 |
| OrgModels.IsOverdue | admin/core/models.py:395-399 | an overdue task has a deadline and is not done |
| OrgModels.IsWarning | admin/core/models.py:402-408 | a warning task has a deadline, is not done and is not overdue |
| OrgModels.FlagsExclusive | admin/core/models.py:395-408 | a task never both warns and is overdue, and neither flag is raised without a deadline or once done |
| OrgModels.WarningWindow | admin/core/models.py:395-408 | a task not done warns exactly when due today or tomorrow, and is overdue exactly when due before today |
| OrgModels.FullName | admin/core/models.py:120-121 | the full name has no blank at either end, is at most both names and one blank long, and is empty when both names are |
| OrgModels.UserLabel | admin/core/models.py:123-131 | `User.__str__` is never empty, starts with the username when there is one, and is "id:" and the Telegram id otherwise when there is no name |
| OrgModels.BlankNamesIgnored | admin/core/models.py:120-131 | blank first and last names count as none: the label is the username or the id |
| Store.ChildrenOf | admin/core/admin.py:121 | `dep.children`: exactly the stored departments whose parent is `d` |
| Store.StaffOf | admin/core/admin.py:115 | `dep.members`: exactly the staff rows of the department |
| Store.TwoLevelsBoundLevel | admin/core/models.py:168-185 | in a tree kept to two levels every department has level at most 2 |
| Store.Roster | admin/core/admin.py:115 | `members.order_by("order_index", "id")` lists each staff row of the department once and no other row |
| Store.AttachWithDetachIsExact | admin/core/admin.py:152-157 | with "detach missing groups", a group ends up in the project exactly when it was chosen |
| Store.AttachWithoutDetachKeeps | admin/core/admin.py:152-155 | without it, the project gains the chosen groups and loses none |
| Store.AttachGroups | admin/core/admin.py:152-158 | the group updates neither add nor remove a group |
| Store.MoveDepartments | admin/core/admin.py:171-174 | the move updates keep every department and change only its project |
| Store.MoveWithDetachIsExact | admin/core/admin.py:170-173 | moving with "detach missing departments" leaves in the project exactly the chosen departments |
| Store.MoveKeepsTree | admin/core/admin.py:170-173 | moving changes only projects: parents, acyclicity, the two-level rule and every level stay |
| Store.AttachMode | admin/core/admin.py:162 | an empty or missing mode means "copy" |
| Store.CopiesFormRoster | admin/core/admin.py:115-119 | the staff copies created one after the other form the copy's roster, in the source's order |
| Store.DepartmentRowKept | admin/core/admin.py:532-607 | a department-level membership, once made, is never removed by the staff forms |
| Store.GeneralRowStaysGone | admin/core/admin.py:532-607 | a general membership, once removed, is never recreated by the staff forms |
| Store.OtherDepartmentsKept | admin/core/admin.py:1013-1014 | saving a department's staff forms leaves the staff of every other department as it was |
| Store.SavedUsersOnStaff | admin/core/admin.py:1013-1014 | after the save every changed or added row's user is on the department's staff |
| Store.SyncedKeepsAssignments | admin/core/admin.py:1015-1030 | the membership sync only adds department rows and removes general rows |
| Store.Database.constructor | admin/core/models.py:134-309 | the empty tables satisfy the tree rules and the unique constraints |
| Store.Database.GetLevel | admin/core/models.py:168-174 | the parent walk returns the level of the department, which is 1 or 2 |
| Store.Database.SaveDepartment | admin/core/models.py:204-222 | the write happens exactly when the save rules accept the instance, under the given or the next id; the tables stay valid and no other department's level changes |
| Store.Database.SaveProjectMember | admin/core/models.py:299-309 | the row is written and a department row removes the general row of its key; a unique-constraint violation leaves the table as it was |
| Store.Database.GetOrCreateMember | admin/core/admin.py:582-584 | a membership row with exactly these fields exists afterwards, and is created only when none existed |
| Store.Database.DeleteGeneralMembers | admin/core/admin.py:586-588 | exactly the general rows of the key are deleted |
| Store.Database.GetOrCreateStaff | admin/core/admin.py:576-579 | the user is on the department's staff afterwards; a default row is created only when the user was not |
| Store.Database.CreateStaff | admin/core/admin.py:116-119 | one new staff row in the department under the next id |
| Store.Database.CreateCopies | admin/core/admin.py:115-119 | the listed rows are copied, one by one and in order, under consecutive new ids into the new department |
| Store.Database.CopyRoster | admin/core/admin.py:115-119 | the new department's roster is a copy of the source's, in (order_index, id) order, and no old row changes |
| Store.Database.CloneNode | admin/core/admin.py:111-119 | the copy of the department is created under the next id with the same name and lead role, then its staff |
| Store.Database.CloneTree | admin/core/admin.py:109-123 | `clone_department_tree` creates a copied tree in the project and changes no existing row |
| Store.Database.CloneChildren | admin/core/admin.py:121-122 | every child of the source, in id order, gets a copy under the new department |
| Store.Database.CopyTemplates | admin/core/admin.py:164-168 | each chosen department outside the project gets a copied tree there, the others none; nothing existing changes |
| Store.Database.SaveProject | admin/core/admin.py:147-176 | `save_model` attaches groups and copies or moves the chosen departments as the mode says, and leaves memberships alone |
| Store.Database.DeleteStaff | admin/core/admin.py:541-543 | the staff row is removed and nothing else |
| Store.Database.SaveStaffRow | admin/core/admin.py:593-595 | the row is written under its own or the next id, unless the (department, user) constraint refuses it |
| Store.Database.AssignChild | admin/core/admin.py:574-584 | the user is on the child's staff and, when the child has a project, holds the department-level membership there |
| Store.Database.FanOut | admin/core/admin.py:567-591 | "parent only": the user joins every child with its membership, loses the parent's general membership, and the count is the staff rows created |
| Store.Database.SyncMembership | admin/core/admin.py:1016-1030 | the department-level membership exists and the general one of that key is gone |
| Store.Database.AssignToDepartment | admin/core/admin.py:593-604 | the form's row is saved in the sub-department; with a project the user gets the department membership and loses the general one |
| Store.Database.ApplyForm | admin/core/admin.py:548-604 | one form fans out, saves its row, or changes nothing, as its fields say |
| Store.Database.SaveUserFormset | admin/core/admin.py:532-607 | the deletions and every form are applied in one transaction; on an error staff and memberships are restored |
| Store.Database.Rollback | admin/core/admin.py:538 | the end of a failed transaction restores the staff and membership tables |
| Store.Database.DeleteRows | admin/core/admin.py:540-543 | the stored row of every deleted form is removed |
| Store.Database.SaveStaffForms | admin/core/admin.py:1014 | `formset.save()` deletes, changes or adds the row of each form, in order |
| Store.Database.SyncSavedMembers | admin/core/admin.py:1015-1030 | every saved row gets its department-level membership and loses the general one |
| Store.Database.SaveStaffFormset | admin/core/admin.py:1013-1030 | the forms are saved and the memberships synced; a department without a project fails and restores the tables |
| DepartmentAdmin.GetFields | admin/core/admin.py:891-905 | the form shows project, name and lead role, plus the parent's name exactly when a parent is given or stored, and never the parent selector |
| DepartmentAdmin.GetReadonlyFields | admin/core/admin.py:907-912 | project and parent are read-only exactly when a department is edited or a child is added |
| DepartmentAdmin.EditableFields | admin/core/admin.py:891-912 | a field can be typed into exactly when it is shown and not read-only |
| DepartmentAdmin.ParentDisplayIsReadonly | admin/core/admin.py:891-912 | whenever the parent's name is shown it is read-only |
| DepartmentAdmin.EditableByMode | admin/core/admin.py:891-912 | only the plain add view lets the user pick a project; the name and lead role are always editable |
| DepartmentAdmin.ChangeformInitialData | admin/core/admin.py:915-925 | with `?parent` of a stored department the form starts with that parent and its project; an unknown id is ignored |
| DepartmentAdmin.SaveModelInstance | admin/core/admin.py:939-947 | on add with `?parent` the parent and its project are fixed (an unknown id is an error); on add without it the parent is cleared; an edit is saved as is |
| DepartmentAdmin.SavedAsInitial | admin/core/admin.py:915-947 | an added child is saved under the parent and in the project the form showed |
| DepartmentAdmin.AddRootOutcome | admin/core/admin.py:939-947 | adding a root succeeds exactly when a project was chosen |
| DepartmentAdmin.AddChildOutcome | admin/core/admin.py:939-947 | with `?parent=p`, `save_model` and then `save` accept the instance exactly when `p` is a stored root with a project, and store a child of `p` in its project |
| DepartmentAdmin.SaveModel | admin/core/admin.py:939-947 | the save writes exactly what the department save rules accept for the adjusted instance, and nothing else changes |
| DepartmentAdmin.InlineInstances | admin/core/admin.py:968-980 | no inlines on add; the sub-department and summary tables for a root or a department with children; the staff table for a leaf child |
| DepartmentAdmin.InlinesByLevel | admin/core/admin.py:968-980 | in a two-level tree roots get the tables and children the staff table |
| DepartmentAdmin.HasAddPermission | admin/core/admin.py:672-676 | adding sub-departments is allowed only on a stored department |
| DepartmentAdmin.CanAddChild | admin/core/admin.py:999-1004 | the add view never offers the "add child" button |
| DepartmentAdmin.AddChildOnlyOnRoots | admin/core/admin.py:672-676 | the inline's add permission and the page's button agree, hold exactly on level-1 departments, and come with the sub-department table |
| DepartmentAdmin.ChildFormInstance | admin/core/admin.py:644-650 | a new row of the sub-department table has the parent set and the parent's project |
| DepartmentAdmin.ChildFormOutcome | admin/core/admin.py:644-676 | such a row saves exactly under a root with a project, as a child with the parent's project |
| DepartmentAdmin.AddChildRow | admin/core/admin.py:644-660 | saving the new row adds a level-2 department under the next id exactly when the parent is a root with a project |
| DepartmentAdmin.InlineRows | admin/core/admin.py:93-105 | the project page's membership inline lists only rows of that project |
| DepartmentAdmin.InlineRowsShown | admin/core/admin.py:93-105 | every department row is listed; a general row is listed exactly when its key has no department row |
| DepartmentAdmin.P1ShowsEveryRow | admin/core/admin.py:93-105 | under rule P1 the filter hides no row of the project |
| Ordering.SortedBy | admin/core/admin.py:780-783 | `order_by(...)` lists every row of the set once and nothing else |
| Ordering.SortedByAscending | admin/core/admin.py:783 | the listing is strictly ascending by (rank, id) |
| Ordering.SortedIds | admin/core/admin.py:121 | `order_by("id")` lists the set once each in strictly increasing id order |
| Ordering.SortedStrings | admin/core/admin.py:806-809 | `sorted(v)` lists every string of the set once and nothing else |
| Ordering.SortedStringsIncrease | admin/core/admin.py:806-809 | `sorted(v)` is strictly increasing in Python's string order |
| MemberSummary.Subtree | admin/core/admin.py:765-777 | the department and everything below it are stored departments |
| MemberSummary.ChildrenOfAny | admin/core/admin.py:769-771 | exactly the stored departments whose parent is listed |
| MemberSummary.LayerIsDepth | admin/core/admin.py:768-777 | round `k` of the walk finds exactly the departments `k` parent steps below the department |
| MemberSummary.UpToIsDepth | admin/core/admin.py:765-777 | after round `k` the ids are exactly the departments at most `k` steps below |
| MemberSummary.NextLayer | admin/core/admin.py:769-771 | `filter(parent_id__in=q)` on the current layer yields the next layer |
| MemberSummary.LayerIsNew | admin/core/admin.py:774 | a new layer repeats no id collected before |
| MemberSummary.ClosedAt | admin/core/admin.py:772-773 | once a round finds no children, the ids hold the whole subtree |
| MemberSummary.ChildOnPath | admin/core/admin.py:789-794 | the child of the department that a lower department lies under is a stored child of it |
| MemberSummary.ChildOnPathTwoLevels | admin/core/admin.py:789-803 | in the two-level tree a row below the department lies in that child itself |
| MemberSummary.SummaryRows | admin/core/admin.py:780-781 | `filter(department_id__in=ids)`: exactly the staff rows of departments in the subtree |
| MemberSummary.UserOrderAscendsPerUser | admin/core/admin.py:783 | in (user_id, id) order the rows of each user come by increasing id |
| MemberSummary.FirstRowsAreFirst | admin/core/admin.py:796-815 | the recorded first rows are exactly the rows with the smallest id of their user |
| MemberSummary.OneFirstRowPerUser | admin/core/admin.py:811-815 | every user of the subtree has exactly one row in the table |
| AllMembers.CollectSubtree | admin/core/admin.py:765-777 | the walk lists the department first, then the whole subtree without repeats, and records every found department's parent and name |
| AllMembers.FirstChildOfParent | admin/core/admin.py:789-794 | None for a row on the department itself, otherwise the child of the department the row lies under |
| AllMembers.TakeRow | admin/core/admin.py:796-803 | one round of the loop extends the first rows, roles and sub-departments to one more row |
| AllMembers.FoldRows | admin/core/admin.py:796-803 | the loop over the rows in (user_id, id) order yields the first rows, roles and sub-departments of all of them |
| AllMembers.FoldMembers | admin/core/admin.py:780-803 | the fold covers every staff row of the subtree |
| AllMembers.AllMembersInline.constructor | admin/core/admin.py:751-752 | both column caches start empty |
| AllMembers.AllMembersInline.GetFormset | admin/core/admin.py:754-831 | no rows for an unsaved department; otherwise one row per user (the first), with the roles and sub-department columns the sorted, joined names over all the user's rows, "—" when none |

## Left out

- Telegram, Postgres, Redis and HTTP I/O: the rows a query returns, the cache contents, the current moment and the request's query string are parameters; messages sent, HTML rendered and admin messages (`message_user`) are not modelled.
- The clock's time zone and seconds: moments are kept to the minute, which is exact for the "later than now" test because the parsed candidates have no seconds.
- Redis failures and the five-minute expiry of the responsible cache: the cache is a map that always answers and never expires, so the `except` branches that print an error and carry on are not modelled; nor is `redis_client` being unbound when only the final write runs.
- Unicode digits: `int()` and `strptime` digits are ASCII `0`-`9`.
- Responsible.Lower: folds only the ASCII capitals A-Z, as Telegram usernames have no other letters; Postgres `LOWER()` and `str.lower()` also fold other alphabets, so a stored username with non-ASCII capitals can match an explicit name in the source and not in the model.
- The month name of the calendar header (`strftime("%B")`, locale-dependent) is a parameter.
- Django field validation (`clean_fields`, form validation of required fields and choices) and the querysets and widgets of `formfield_for_foreignkey`; only the model `clean`/`save` rules and the admin's own logic are modelled.
- The first `save_model` and `formfield_for_foreignkey` of `DepartmentAdmin`, which the later definitions in the same class replace, and `response_add`, `response_change` and `changelist_view`, which only redirect or render.
- A `?parent` query value that is not a number (the source would raise); the model takes the parameter as an optional integer.
- The fallback list at the end of `DepartmentAdmin.get_fields`, which no path reaches.
- DepartmentAdmin.AddChildOutcome: starts at `save_model`; the admin form's own model validation runs before it while `project` and `parent` are read-only (admin/core/admin.py:910-911) and so not form fields, and is not modelled. Read against Django's form handling, that validation may already refuse the new child with the "root needs a project" error of admin/core/models.py:192-194.
- Ids never roll back: a failed transaction restores the tables but not the id sequence, as in Postgres, so later ids may skip values.
- The project form's move mode writes the department's project without running `clean`, as the source's `update()` does.
- Store.Database.SaveUserFormset: the created-rows count is returned, but the success message built from it is not modelled.
- The sub-department inline's rows are saved through `Store.Database.SaveDepartment`, the same rules as the department form.
- The order in which copy mode visits the chosen departments (`Department` ordering by name) is the given sequence `chosen`; the model does not sort it.
- AllMembers.AllMembersInline.GetFormset: the rows are returned as a set; the source's `order_by("user__username")` only orders them for display.
- AllMembers.CollectSubtree: lists each breadth-first layer in id order, where the source's `.values()` query follows `Meta.ordering` of `Department` and lists it by name (admin/core/admin.py:769-771, admin/core/models.py:163); only the set of ids is used afterwards, so nothing else depends on it.
- NewTaskCommand.NewTask: the model starts after the `_require_can_assign_msg` check (bot/main.py:963-964, helper at bot/main.py:456-466); a sender without a Telegram id or whose role lacks `can_assign` gets "🔒 Недостаточно прав" and nothing else, which is not modelled.
- NewTaskCommand.NewTaskAsWritten: starts after the same can-assign check, whose refusal is not modelled.
- NewTaskCommand.NewTaskReplies: holds for a sender allowed to assign; for any other sender the refusal comes before the usage line.
- NewTaskCommand.AsWrittenNeverOffersCalendar: holds for a sender allowed to assign, for the same reason.
- Checklast.CreateSelection: the model starts after the `_require_can_assign_cb` check (bot/main.py:1520-1521), whose refusal comes before the selection is read and is not modelled.
- Checklast.CreateTakesSelectedInOrder: holds for a sender allowed to assign, for the same reason.
- CalendarCallback.CalendarAction: a picked date is the text after "cal:"; the draft lookup that follows (bot/main.py:1648-1654), which deletes the calendar and answers "Сессия истекла" when no draft is stored, is not modelled.
- The `if m.role_id:` and `if child:` tests of `get_formset` are always true in the model: every staff row has a role, and a row below the department always has a sub-department on its path.
- OrgModels.IsWarning: requires a date other than 9999-12-31; for a task with a deadline the source's `today + timedelta(days=1)` raises `OverflowError` on that date (admin/core/models.py:407), and the model does not represent that error.
- OrgModels.FlagsExclusive: carries the same requirement of a date other than 9999-12-31, because it speaks about `IsWarning`.
- OrgModels.WarningWindow: carries the same requirement of a date other than 9999-12-31, because it speaks about `IsWarning`.
- Store.Database.FanOut: visits the children of the chosen parent in id order; the source iterates `Department.objects.filter(parent=parent)` (admin/core/admin.py:564), which the `Meta.ordering` of `Department` sorts by name (admin/core/models.py:163). The staff rows and memberships that result are the same, but new rows may get their ids in a different order.
- Store.Database.ApplyForm: inherits that id-order visit of the children from `FanOut`.
- CalendarKeyboard.TimeSlots: requires a step above 0; for a step of 0 or less the source's `while` loop (bot/handlers/calendar.py:87-92) never ends, and the only call passes 30 (bot/main.py:1661).
- CalendarKeyboard.BuildTimeKb: carries the same requirement of a step above 0, for the same reason.
- Store.Database.CloneTree: with a parent given, the source is required to be a leaf, which is the only way the admin calls it in a two-level tree (children of a root are leaves).
- Tests, migrations, management commands, the scheduler, the remaining bot handlers and the agent scripts are not part of this model.

## Findings

| source | as written | input that shows it | evidently intended | confidence | as-written member | corrected member |
|---|---|---|---|---|---|---|
| bot/main.py:985-991 | the deadline scan tries the shortest trailing run of words first and stops at the first that parses | "/newtask fix bug 2025-02-01 18:00": "18:00" parses alone, so the deadline is the next 18:00 and "2025-02-01" stays in the task text | the longest trailing run that parses is the deadline, here 2025-02-01 18:00 with text "fix bug" | high, not executed | NewTaskCommand.ShortestTakesOnlyTheClock | NewTaskCommand.LongestTakesDateAndTime |
| bot/main.py:998-1025 | with no deadline found, `topic_id` is read at line 1004 before it is assigned at line 1025, so the handler always ends in the error reply | "/newtask invalid" | the draft is kept and the calendar is shown for the first 100 characters of the text | high, not executed | NewTaskCommand.NoDeadlineFails | NewTaskCommand.NoDeadlineShowsCalendar |
