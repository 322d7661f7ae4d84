/**
 * The `/newtask [@user] text [deadline]` command of bot/main.py: the
 * arguments are split into words, an optional "@name" is taken off the
 * front, the deadline is looked for among the trailing words, and the task
 * is either created at once or the calendar is offered for the date.
 */
module NewTaskCommand {
  import opened Wrappers
  import opened Text
  import opened Dates
  import opened Deadline
  import opened Responsible
  import opened BotHelpers

  // ---------------------------------------------------------------- arguments

  /** `s.lstrip(c)`. */
  function LStripChar(s: string, c: char): (r: string)
    ensures |r| <= |s| && r == s[|s| - |r|..]
    ensures forall i :: 0 <= i < |s| - |r| ==> s[i] == c
    ensures r == [] || r[0] != c
  {
    if s != [] && s[0] == c then LStripChar(s[1..], c) else s
  }

  /** The mentioned user, if the first word starts with '@', and the words of the text. */
  datatype Arguments = Arguments(explicit: Option<string>, textParts: seq<string>)

  /** `parts = args.split()` and the '@' test; None where `parts[0]` raises. */
  function ParseArgs(args: string): Option<Arguments> {
    var parts := Words(args);
    if parts == [] then None
    else if parts[0][0] == '@' then Some(Arguments(Some(LStripChar(parts[0], '@')), parts[1..]))
    else Some(Arguments(None, parts))
  }

  /**
   * The arguments are read exactly when there is a word; the first word is the
   * mention when it starts with '@', and the text is the words after it, or all
   * of them.
   */
  lemma ArgumentsOfWords(args: string)
    ensures ParseArgs(args).None? <==> Words(args) == []
    ensures ParseArgs(args).Some? ==>
      var a := ParseArgs(args).value;
      && (a.explicit.Some? <==> Words(args)[0][0] == '@')
      && a.textParts == (if a.explicit.Some? then Words(args)[1..] else Words(args))
      && (a.explicit.Some? ==> a.explicit.value == [] || a.explicit.value[0] != '@')
  {
  }

  /** A leading "@name" is the explicit assignee and the remaining words are the text. */
  lemma MentionTakenOff(name: string, ws: seq<string>)
    requires name != [] && NoSpace(name) && name[0] != '@'
    requires forall k :: 0 <= k < |ws| ==> ws[k] != [] && NoSpace(ws[k])
    ensures ParseArgs(Join(" ", ["@" + name] + ws)) == Some(Arguments(Some(name), ws))
  {
    var first := "@" + name;
    assert NoSpace(first) by {
      forall i | 0 <= i < |first| ensures !IsSpace(first[i]) {
        if i > 0 { assert first[i] == name[i - 1]; }
      }
    }
    WordsOfJoin(["@" + name] + ws);
    assert first[1..] == name;
  }

  // ---------------------------------------------------------------- the suffix scan

  /** `" ".join(text_parts[-(i+1):])`: the last i + 1 words. */
  function DeadlineSuffix(parts: seq<string>, i: nat): string
    requires i < |parts|
  {
    Join(" ", parts[|parts| - (i + 1)..])
  }

  /** `" ".join(text_parts[:-(i+1)])`: the words before them. */
  function TextBefore(parts: seq<string>, i: nat): string
    requires i < |parts|
  {
    Join(" ", parts[..|parts| - (i + 1)])
  }

  /** `parse_deadline(…, TIMEZONE)` with the clock reading `now`. */
  function DeadlineParser(now: Moment): string -> Option<Moment>
    requires ValidMoment(now)
  {
    s => ParseDeadline(s, now)
  }

  /** The scan as written: suffixes tried shortest first, from i on. */
  function ShortestFrom(parts: seq<string>, parse: string -> Option<Moment>, i: nat): Option<(Moment, string)>
    requires i <= |parts|
    decreases |parts| - i
  {
    if i == |parts| then None
    else
      match parse(DeadlineSuffix(parts, i))
      case Some(d) => Some((d, TextBefore(parts, i)))
      case None => ShortestFrom(parts, parse, i + 1)
  }

  function ShortestDeadline(parts: seq<string>, parse: string -> Option<Moment>): Option<(Moment, string)> {
    ShortestFrom(parts, parse, 0)
  }

  /** The scan finds nothing exactly when no trailing run of words parses. */
  lemma {:induction false} ShortestFindsNone(parts: seq<string>, parse: string -> Option<Moment>, i: nat)
    requires i <= |parts|
    ensures ShortestFrom(parts, parse, i).None? <==>
      forall j :: i <= j < |parts| ==> parse(DeadlineSuffix(parts, j)).None?
    decreases |parts| - i
  {
    if i < |parts| && parse(DeadlineSuffix(parts, i)).None? {
      ShortestFindsNone(parts, parse, i + 1);
    }
  }

  /** What the scan finds is the shortest trailing run of words that parses, and the words before it. */
  lemma {:induction false} ShortestIsFirstToParse(parts: seq<string>, parse: string -> Option<Moment>, i: nat) returns (j: nat)
    requires i <= |parts| && ShortestFrom(parts, parse, i).Some?
    ensures i <= j < |parts| && parse(DeadlineSuffix(parts, j)).Some?
    ensures ShortestFrom(parts, parse, i) == Some((parse(DeadlineSuffix(parts, j)).value, TextBefore(parts, j)))
    ensures forall k :: i <= k < j ==> parse(DeadlineSuffix(parts, k)).None?
    decreases |parts| - i
  {
    if parse(DeadlineSuffix(parts, i)).Some? {
      j := i;
    } else {
      j := ShortestIsFirstToParse(parts, parse, i + 1);
    }
  }

  /** The `for i in range(len(text_parts))` loop with its `break`. */
  method ScanDeadline(textParts: seq<string>, now: Moment) returns (deadline: Option<Moment>, text: Option<string>)
    requires ValidMoment(now)
    ensures match ShortestDeadline(textParts, DeadlineParser(now))
      case None => deadline.None? && text.None?
      case Some(found) => deadline == Some(found.0) && text == Some(found.1)
  {
    var parse := DeadlineParser(now);
    deadline, text := None, None;
    var i := 0;
    while i < |textParts|
      invariant 0 <= i <= |textParts|
      invariant ShortestFrom(textParts, parse, i) == ShortestDeadline(textParts, parse)
      invariant deadline.None? && text.None?
    {
      var candidate := parse(Join(" ", textParts[|textParts| - (i + 1)..]));
      if candidate.Some? {
        deadline := candidate;
        text := Some(Join(" ", textParts[..|textParts| - (i + 1)]));
        return;
      }
      i := i + 1;
    }
  }

  /** The corrected scan: suffixes tried longest first, from i + 1 words back down. */
  function LongestFrom(parts: seq<string>, parse: string -> Option<Moment>, i: int): Option<(Moment, string)>
    requires -1 <= i < |parts|
    decreases i + 1
  {
    if i < 0 then None
    else
      match parse(DeadlineSuffix(parts, i))
      case Some(d) => Some((d, TextBefore(parts, i)))
      case None => LongestFrom(parts, parse, i - 1)
  }

  function LongestDeadline(parts: seq<string>, parse: string -> Option<Moment>): Option<(Moment, string)> {
    LongestFrom(parts, parse, |parts| - 1)
  }

  /** The corrected scan finds nothing exactly when no trailing run of words parses. */
  lemma {:induction false} LongestFindsNone(parts: seq<string>, parse: string -> Option<Moment>, i: int)
    requires -1 <= i < |parts|
    ensures LongestFrom(parts, parse, i).None? <==>
      forall j :: 0 <= j <= i ==> parse(DeadlineSuffix(parts, j)).None?
    decreases i + 1
  {
    if i >= 0 && parse(DeadlineSuffix(parts, i)).None? {
      LongestFindsNone(parts, parse, i - 1);
    }
  }

  /** The corrected scan takes the longest trailing run of words that parses. */
  lemma {:induction false} LongestIsFirstToParse(parts: seq<string>, parse: string -> Option<Moment>, i: int) returns (j: nat)
    requires -1 <= i < |parts| && LongestFrom(parts, parse, i).Some?
    ensures j <= i && parse(DeadlineSuffix(parts, j)).Some?
    ensures LongestFrom(parts, parse, i) == Some((parse(DeadlineSuffix(parts, j)).value, TextBefore(parts, j)))
    ensures forall k :: j < k <= i ==> parse(DeadlineSuffix(parts, k)).None?
    decreases i + 1
  {
    if parse(DeadlineSuffix(parts, i)).Some? {
      j := i;
    } else {
      j := LongestIsFirstToParse(parts, parse, i - 1);
    }
  }

  /** The corrected loop, counting the suffix length down. */
  method ScanDeadlineLongest(textParts: seq<string>, now: Moment) returns (deadline: Option<Moment>, text: Option<string>)
    requires ValidMoment(now)
    ensures match LongestDeadline(textParts, DeadlineParser(now))
      case None => deadline.None? && text.None?
      case Some(found) => deadline == Some(found.0) && text == Some(found.1)
  {
    var parse := DeadlineParser(now);
    deadline, text := None, None;
    var i := |textParts| - 1;
    while i >= 0
      invariant -1 <= i < |textParts|
      invariant LongestFrom(textParts, parse, i) == LongestDeadline(textParts, parse)
      invariant deadline.None? && text.None?
    {
      var candidate := parse(Join(" ", textParts[|textParts| - (i + 1)..]));
      if candidate.Some? {
        deadline := candidate;
        text := Some(Join(" ", textParts[..|textParts| - (i + 1)]));
        return;
      }
      i := i - 1;
    }
  }

  // ---------------------------------------------------------------- scan lemmas

  /** A character no deadline can start with: not a digit, a sign or a blank. */
  predicate WordStart(c: char) {
    !IsDigit(c) && c != '+' && c != '-' && !IsSpace(c)
  }

  /** A text starting like a word is no deadline: neither a date nor an "HH:MM" `int` accepts it. */
  lemma WordStartRejected(s: string, now: Moment)
    requires ValidMoment(now) && s != [] && WordStart(s[0]) && !IsSpace(s[|s| - 1])
    ensures ParseDeadline(s, now) == None
  {
    TrimmedArgument(s, now);
    WordStartNotADate(s);
    NotADateMeansClock(s, now);
    WordStartNotAClock(s, now);
  }

  lemma WordStartNotADate(s: string)
    requires s != [] && WordStart(s[0])
    ensures ParseYearMonth(s) == None
  {
    if |s| >= 5 {
      assert s[..4][0] == s[0];
    }
  }

  /** Before the ':' there is a word start, which `int()` refuses. */
  lemma WordStartNotAClock(s: string, now: Moment)
    requires ValidMoment(now) && s != [] && WordStart(s[0])
    ensures ParseClock(s, now) == None
  {
    var parts := SplitOn(s, ':');
    if |parts| == 2 {
      JoinSplitOn(s, ':');
      assert parts[1..] == [parts[1]];
      assert s == parts[0] + [':'] + parts[1];
      if parts[0] != [] {
        assert parts[0][0] == s[0];
        StripKeepsFirst(parts[0]);
      }
      assert PyInt(parts[0]) == None;
    }
  }

  /** The words before a trailing date and time start like words, so only the date and time parse. */
  lemma {:induction false} LongerSuffixesRejected(ws: seq<string>, tail: seq<string>, now: Moment, i: int)
    requires ValidMoment(now)
    requires forall k :: 0 <= k < |ws| ==> ws[k] != [] && NoSpace(ws[k]) && WordStart(ws[k][0])
    requires |tail| == 2 && forall k :: 0 <= k < 2 ==> tail[k] != [] && NoSpace(tail[k])
    requires 1 <= i < |ws| + 2
    ensures LongestFrom(ws + tail, DeadlineParser(now), i) == LongestFrom(ws + tail, DeadlineParser(now), 1)
    decreases i
  {
    if i > 1 {
      SuffixFromWordRejected(ws, tail, now, i);
      LongerSuffixesRejected(ws, tail, now, i - 1);
    }
  }

  /** A suffix that reaches back into the words does not parse. */
  lemma SuffixFromWordRejected(ws: seq<string>, tail: seq<string>, now: Moment, i: int)
    requires ValidMoment(now)
    requires forall k :: 0 <= k < |ws| ==> ws[k] != [] && NoSpace(ws[k]) && WordStart(ws[k][0])
    requires |tail| == 2 && forall k :: 0 <= k < 2 ==> tail[k] != [] && NoSpace(tail[k])
    requires 2 <= i < |ws| + 2
    ensures DeadlineParser(now)(DeadlineSuffix(ws + tail, i)) == None
  {
    var parts := ws + tail;
    var j := |parts| - (i + 1);
    var run := parts[j..];
    assert run[0] == ws[j];
    assert forall k :: 0 <= k < |run| ==> run[k] != [] && NoSpace(run[k]) by {
      forall k | 0 <= k < |run| ensures run[k] != [] && NoSpace(run[k]) {
        assert run[k] == parts[j + k];
        if j + k >= |ws| { assert parts[j + k] == tail[j + k - |ws|]; }
      }
    }
    JoinEnds(" ", run);
    var last := run[|run| - 1];
    assert last == tail[1];
    WordStartRejected(DeadlineSuffix(parts, i), now);
  }

  /**
   * As written, a trailing "YYYY-MM-DD HH:MM" gives way to its last word: the
   * clock alone is the deadline and the date stays in the text.
   */
  lemma ShortestTakesOnlyTheClock(ws: seq<string>, d: Date, h: int, m: int, now: Moment)
    requires ValidMoment(now) && ValidDate(d) && d.year >= 1000 && 0 <= h < 24 && 0 <= m < 60
    requires NextOccurrence(now, h, m).Some?
    ensures var found := ShortestDeadline(ws + [IsoDate(d), ClockText(h, m)], DeadlineParser(now));
      && found == Some((NextOccurrence(now, h, m).value, Join(" ", ws + [IsoDate(d)])))
      && (found.value.0.date == now.date || found.value.0.date == NextDay(now.date))
  {
    var parts := ws + [IsoDate(d), ClockText(h, m)];
    assert parts[|parts| - 1..] == [ClockText(h, m)];
    assert parts[..|parts| - 1] == ws + [IsoDate(d)];
    ClockRoundTrip(h, m, now);
  }

  /** The corrected scan stops at a run that parses once every longer run has failed. */
  lemma LongestStopsAt(parts: seq<string>, parse: string -> Option<Moment>, i: nat, d: Moment)
    requires i < |parts| && parse(DeadlineSuffix(parts, i)) == Some(d)
    requires LongestDeadline(parts, parse) == LongestFrom(parts, parse, i)
    ensures LongestDeadline(parts, parse) == Some((d, TextBefore(parts, i)))
  {
    assert LongestFrom(parts, parse, i) == Some((d, TextBefore(parts, i)));
  }

  /** The last two words as one deadline text, and the words before them. */
  lemma LastTwoWords(ws: seq<string>, a: string, b: string)
    ensures DeadlineSuffix(ws + [a, b], 1) == a + " " + b
    ensures TextBefore(ws + [a, b], 1) == Join(" ", ws)
  {
    var parts := ws + [a, b];
    assert parts[|parts| - 2..] == [a, b];
    assert parts[..|parts| - 2] == ws;
    assert [a, b][1..] == [b];
    assert Join(" ", [b]) == b;
    assert Join(" ", [a, b]) == a + " " + b;
  }

  /** Behind words that start like words, only the last two words can form the deadline. */
  lemma OnlyLastTwoCanParse(ws: seq<string>, a: string, b: string, now: Moment)
    requires ValidMoment(now)
    requires forall k :: 0 <= k < |ws| ==> ws[k] != [] && NoSpace(ws[k]) && WordStart(ws[k][0])
    requires a != [] && NoSpace(a) && b != [] && NoSpace(b)
    ensures LongestDeadline(ws + [a, b], DeadlineParser(now)) == LongestFrom(ws + [a, b], DeadlineParser(now), 1)
  {
    LongerSuffixesRejected(ws, [a, b], now, |ws| + 1);
  }

  /** Corrected, a trailing "YYYY-MM-DD HH:MM" is the deadline and the words before it the text. */
  lemma LongestTakesDateAndTime(ws: seq<string>, d: Date, h: int, m: int, now: Moment)
    requires ValidMoment(now) && ValidDate(d) && d.year >= 1000 && 0 <= h < 24 && 0 <= m < 60
    requires forall k :: 0 <= k < |ws| ==> ws[k] != [] && NoSpace(ws[k]) && WordStart(ws[k][0])
    ensures LongestDeadline(ws + [IsoDate(d), ClockText(h, m)], DeadlineParser(now)) == Some((Moment(d, h, m), Join(" ", ws)))
  {
    var date, clock := IsoDate(d), ClockText(h, m);
    var parts := ws + [date, clock];
    var parse := DeadlineParser(now);
    IsoDateNoSpace(d);
    ClockTextNoSpace(h, m);
    OnlyLastTwoCanParse(ws, date, clock, now);
    LastTwoWords(ws, date, clock);
    assert parse(DeadlineSuffix(parts, 1)) == Some(Moment(d, h, m)) by {
      DateTimeRoundTrip(d, h, m, now);
    }
    LongestStopsAt(parts, parse, 1, Moment(d, h, m));
  }

  lemma IsoDateNoSpace(d: Date)
    requires ValidDate(d)
    ensures NoSpace(IsoDate(d))
  {
    var y, mo, dd := Pad4(d.year), Pad2(d.month), Pad2(d.day);
    var s := IsoDate(d);
    assert s == y + "-" + mo + "-" + dd;
    forall i | 0 <= i < |s| ensures !IsSpace(s[i]) {
      if i < 4 { assert s[i] == y[i]; }
      else if 5 <= i < 7 { assert s[i] == mo[i - 5]; }
      else if 8 <= i { assert s[i] == dd[i - 8]; }
    }
  }

  lemma ClockTextNoSpace(h: int, m: int)
    requires 0 <= h < 100 && 0 <= m < 100
    ensures NoSpace(ClockText(h, m))
  {
    var hh, mm := Pad2(h), Pad2(m);
    var s := ClockText(h, m);
    assert s == hh + ":" + mm;
    forall i | 0 <= i < |s| ensures !IsSpace(s[i]) {
      if i < 2 { assert s[i] == hh[i]; }
      else if 3 <= i { assert s[i] == mm[i - 3]; }
    }
  }

  // ---------------------------------------------------------------- the command

  /** The draft kept while the user picks a date: the JSON stored under `newtask:<chat>:<user>`. */
  datatype Draft = Draft(text: string, responsibleUsername: Option<string>, topicId: Option<int>, messageId: int)

  /** The row inserted into core_task. */
  datatype TaskRow = TaskRow(title: string, description: string, responsibleUserId: Option<int>,
                             responsibleUsername: string, deadline: Moment,
                             sourceTopicId: Option<int>, sourceMessageId: int)

  /** What the command answers. */
  datatype Reply =
    | Usage                                // no arguments
    | Failed                               // an exception, answered with "⚠️ Ошибка: …"
    | ChooseDate(draft: Draft, prompt: string)  // the calendar is shown
    | NoResponsible                        // nobody could be assigned
    | Created(task: TaskRow, response: string)

  /** The message, the chat and what the resolver and the insert see. */
  datatype Context = Context(now: Moment, chatId: int, topicId: Option<int>, messageId: int,
                             db: Db, cached: Option<string>, bindings: seq<Binding>, insertedId: Option<int>)

  /** `if not text: text = " ".join(text_parts) if text_parts else "Задача"`. */
  function TaskText(textParts: seq<string>, found: Option<string>): (r: string)
    requires forall k :: 0 <= k < |textParts| ==> textParts[k] != []
    ensures r != []
  {
    if found.Some? && found.value != "" then found.value
    else if textParts != [] then
      JoinEnds(" ", textParts);
      Join(" ", textParts)
    else "Задача"
  }

  /** Resolving the assignee and inserting the task, once a deadline is known. */
  function Schedule(ctx: Context, explicit: Option<string>, text: string, deadline: Moment): (r: Reply)
    ensures r.NoResponsible? || r.Created?
    ensures r.Created? ==>
      (&& |r.task.title| <= 256 && |r.task.title| <= |text| && r.task.title == text[..|r.task.title|]
       && r.task.description == text && r.task.deadline == deadline)
  {
    var res := Resolve(ctx.db, ctx.chatId, ctx.topicId, explicit, ctx.cached, ctx.bindings);
    var named := res.username.Some? && res.username.value != "";
    if !Truthy(res.userId) && !named then NoResponsible
    else
      Created(TaskRow(PyPrefix(text, 256), text, res.userId, if named then res.username.value else "unknown",
                      deadline, ctx.topicId, ctx.messageId),
              TaskCreatedResponse(1, if Truthy(ctx.insertedId) then Some([ctx.insertedId.value]) else None))
  }

  const ChooseDatePrompt := "📅 Выберите дату дедлайна для задачи:\n<b>"

  /**
   * `new_task` as written, for a sender who passed the can-assign check.
   * Without a deadline the draft reads `topic_id` before the assignment
   * further down, so the handler always fails there.
   */
  function NewTaskAsWritten(args: Option<string>, ctx: Context): Reply
    requires ValidMoment(ctx.now)
  {
    if args.None? || args.value == "" then Usage
    else
      match ParseArgs(args.value)
      case None => Failed
      case Some(a) =>
        var found := ShortestDeadline(a.textParts, DeadlineParser(ctx.now));
        var text := TaskText(a.textParts, if found.Some? then Some(found.value.1) else None);
        if found.None? then Failed
        else Schedule(ctx, a.explicit, text, found.value.0)
  }

  /**
   * `new_task` as intended, for a sender who passed the can-assign check:
   * without a deadline the draft is stored and the calendar offered, and a
   * trailing date and time is taken whole.
   */
  function NewTask(args: Option<string>, ctx: Context): Reply
    requires ValidMoment(ctx.now)
  {
    if args.None? || args.value == "" then Usage
    else
      match ParseArgs(args.value)
      case None => Failed
      case Some(a) => AfterScan(ctx, a, LongestDeadline(a.textParts, DeadlineParser(ctx.now)))
  }

  /** The corrected command once the words are read and the scan has run: the calendar, or scheduling. */
  function AfterScan(ctx: Context, a: Arguments, found: Option<(Moment, string)>): Reply
    requires forall k :: 0 <= k < |a.textParts| ==> a.textParts[k] != []
  {
    var text := TaskText(a.textParts, if found.Some? then Some(found.value.1) else None);
    if found.None? then
      ChooseDate(Draft(text, a.explicit, ctx.topicId, ctx.messageId), ChooseDatePrompt + PyPrefix(text, 100) + "</b>")
    else Schedule(ctx, a.explicit, text, found.value.0)
  }

  // ---------------------------------------------------------------- command lemmas

  /**
   * The corrected command's replies: the usage line exactly without arguments,
   * the error exactly when the arguments hold no word, and otherwise a calendar
   * for a non-empty draft or the scheduling outcome.
   */
  lemma NewTaskReplies(args: Option<string>, ctx: Context)
    requires ValidMoment(ctx.now)
    ensures NewTask(args, ctx).Usage? <==> args.None? || args.value == ""
    ensures NewTask(args, ctx).Failed? <==> args.Some? && args.value != "" && Words(args.value) == []
    ensures NewTask(args, ctx).ChooseDate? ==>
      NewTask(args, ctx).draft.text != [] && StartsWith(NewTask(args, ctx).prompt, ChooseDatePrompt)
    ensures NewTask(args, ctx).Created? ==> NewTask(args, ctx).task.description != []
  {
    if args.Some? && args.value != "" {
      ArgumentsOfWords(args.value);
      if Words(args.value) != [] {
        NewTaskWithWords(args.value, ctx);
      }
    }
  }

  /** With at least one word the corrected command offers the calendar for a non-empty draft or schedules the task. */
  lemma NewTaskWithWords(args: string, ctx: Context)
    requires ValidMoment(ctx.now) && args != "" && ParseArgs(args).Some?
    ensures var r := NewTask(Some(args), ctx);
      && (r.ChooseDate? || r.NoResponsible? || r.Created?)
      && (r.ChooseDate? ==> r.draft.text != [] && StartsWith(r.prompt, ChooseDatePrompt))
      && (r.Created? ==> r.task.description != [])
  {
    var a := ParseArgs(args).value;
    AfterScanShape(ctx, a, LongestDeadline(a.textParts, DeadlineParser(ctx.now)));
  }

  /** The calendar exactly when no deadline was found; the draft and the task text are never empty. */
  lemma AfterScanShape(ctx: Context, a: Arguments, found: Option<(Moment, string)>)
    requires forall k :: 0 <= k < |a.textParts| ==> a.textParts[k] != []
    ensures var r := AfterScan(ctx, a, found);
      && (r.ChooseDate? <==> found.None?)
      && (r.ChooseDate? ==> r.draft.text != [] && StartsWith(r.prompt, ChooseDatePrompt))
      && (r.NoResponsible? || r.Created? || r.ChooseDate?)
      && (r.Created? ==> r.task.description != [] && r.task.deadline == found.value.0)
  {
    var r := AfterScan(ctx, a, found);
    if found.None? {
      assert r.prompt[..|ChooseDatePrompt|] == ChooseDatePrompt;
    }
  }

  /** The command as written never offers the calendar: without a deadline it fails. */
  lemma AsWrittenNeverOffersCalendar(args: Option<string>, ctx: Context)
    requires ValidMoment(ctx.now)
    ensures NewTaskAsWritten(args, ctx).Usage? <==> args.None? || args.value == ""
    ensures !NewTaskAsWritten(args, ctx).ChooseDate?
    ensures NewTaskAsWritten(args, ctx).Created? ==> NewTaskAsWritten(args, ctx).task.description != []
  {
  }

  /** As written, a task text without any deadline always ends in the error reply. */
  lemma NoDeadlineFails(args: string, ctx: Context)
    requires ValidMoment(ctx.now) && args != [] && ParseArgs(args).Some?
    requires var parts := ParseArgs(args).value.textParts;
      forall j :: 0 <= j < |parts| ==> DeadlineParser(ctx.now)(DeadlineSuffix(parts, j)).None?
    ensures NewTaskAsWritten(Some(args), ctx) == Failed
  {
    ShortestFindsNone(ParseArgs(args).value.textParts, DeadlineParser(ctx.now), 0);
  }

  /** Corrected, the same text is kept as a draft and the calendar is offered. */
  lemma NoDeadlineShowsCalendar(args: string, ctx: Context)
    requires ValidMoment(ctx.now) && args != [] && ParseArgs(args).Some?
    requires var parts := ParseArgs(args).value.textParts;
      forall j :: 0 <= j < |parts| ==> DeadlineParser(ctx.now)(DeadlineSuffix(parts, j)).None?
    ensures var a := ParseArgs(args).value;
      var text := if a.textParts != [] then Join(" ", a.textParts) else "Задача";
      NewTask(Some(args), ctx) ==
        ChooseDate(Draft(text, a.explicit, ctx.topicId, ctx.messageId), ChooseDatePrompt + PyPrefix(text, 100) + "</b>")
  {
    var a := ParseArgs(args).value;
    assert LongestDeadline(a.textParts, DeadlineParser(ctx.now)).None? by {
      LongestFindsNone(a.textParts, DeadlineParser(ctx.now), |a.textParts| - 1);
    }
  }

  /** "invalid" is one word and no deadline. */
  lemma InvalidWordArguments(now: Moment)
    requires ValidMoment(now)
    ensures ParseArgs("invalid") == Some(Arguments(None, ["invalid"]))
    ensures DeadlineParser(now)(DeadlineSuffix(["invalid"], 0)) == None
  {
    InvalidWordParses();
    assert DeadlineSuffix(["invalid"], 0) == "invalid" by {
      assert ["invalid"][0..] == ["invalid"];
    }
    WordRejected(now);
  }

  lemma InvalidWordParses()
    ensures ParseArgs("invalid") == Some(Arguments(None, ["invalid"]))
  {
    var w := "invalid";
    assert NoSpace(w) by {
      forall i | 0 <= i < |w| ensures !IsSpace(w[i]) {
      }
    }
    WordsOfWord(w);
  }

  /** The word "invalid" alone: the handler as written fails, the corrected one offers the calendar. */
  lemma InvalidWordExample(ctx: Context)
    requires ValidMoment(ctx.now)
    ensures NewTaskAsWritten(Some("invalid"), ctx) == Failed
    ensures NewTask(Some("invalid"), ctx).ChooseDate?
    ensures NewTask(Some("invalid"), ctx).draft == Draft("invalid", None, ctx.topicId, ctx.messageId)
  {
    InvalidWordArguments(ctx.now);
    assert forall j :: 0 <= j < |["invalid"]| ==> DeadlineParser(ctx.now)(DeadlineSuffix(["invalid"], j)).None? by {
      forall j | 0 <= j < |["invalid"]| ensures DeadlineParser(ctx.now)(DeadlineSuffix(["invalid"], j)).None? {
        assert j == 0;
      }
    }
    assert NewTaskAsWritten(Some("invalid"), ctx) == Failed by {
      NoDeadlineFails("invalid", ctx);
    }
    assert NewTask(Some("invalid"), ctx) ==
      ChooseDate(Draft("invalid", None, ctx.topicId, ctx.messageId), ChooseDatePrompt + PyPrefix("invalid", 100) + "</b>") by {
      NoDeadlineShowsCalendar("invalid", ctx);
      assert Join(" ", ["invalid"]) == "invalid";
    }
  }

  /** Once the arguments are read and a deadline found with some text before it, the task is scheduled. */
  lemma DeadlineFoundSchedules(args: string, ctx: Context, a: Arguments, x: Moment, text: string)
    requires ValidMoment(ctx.now) && args != [] && ParseArgs(args) == Some(a)
    requires LongestDeadline(a.textParts, DeadlineParser(ctx.now)) == Some((x, text)) && text != []
    ensures NewTask(Some(args), ctx) == Schedule(ctx, a.explicit, text, x)
  {
  }

  /** Two more blank-free words after blank-free words. */
  lemma AppendTwoWords(ws: seq<string>, a: string, b: string)
    requires forall k :: 0 <= k < |ws| ==> ws[k] != [] && NoSpace(ws[k])
    requires a != [] && NoSpace(a) && b != [] && NoSpace(b)
    ensures forall k :: 0 <= k < |ws + [a, b]| ==> (ws + [a, b])[k] != [] && NoSpace((ws + [a, b])[k])
  {
    var tail := ws + [a, b];
    forall k | 0 <= k < |tail| ensures tail[k] != [] && NoSpace(tail[k]) {
      if k >= |ws| {
        assert tail[k] == [a, b][k - |ws|];
      }
    }
  }

  /** "@name", the words, a date and a time read as the mention and the words after it. */
  lemma MentionThenDateTime(name: string, ws: seq<string>, d: Date, h: int, m: int)
    requires ValidDate(d) && 0 <= h < 24 && 0 <= m < 60
    requires name != [] && NoSpace(name) && name[0] != '@'
    requires forall k :: 0 <= k < |ws| ==> ws[k] != [] && NoSpace(ws[k])
    ensures var tail := ws + [IsoDate(d), ClockText(h, m)];
      && Join(" ", ["@" + name] + tail) != []
      && ParseArgs(Join(" ", ["@" + name] + tail)) == Some(Arguments(Some(name), tail))
  {
    var tail := ws + [IsoDate(d), ClockText(h, m)];
    assert ParseArgs(Join(" ", ["@" + name] + tail)) == Some(Arguments(Some(name), tail)) by {
      IsoDateNoSpace(d);
      ClockTextNoSpace(h, m);
      AppendTwoWords(ws, IsoDate(d), ClockText(h, m));
      MentionTakenOff(name, tail);
    }
    assert (["@" + name] + tail)[0] == "@" + name;
    JoinCoversFirst(" ", ["@" + name] + tail);
  }

  /** A text followed by a date and a time creates the task with that deadline and that text. */
  lemma DateAndTimeDeadline(name: string, ws: seq<string>, d: Date, h: int, m: int, ctx: Context)
    requires ValidMoment(ctx.now) && ValidDate(d) && d.year >= 1000 && 0 <= h < 24 && 0 <= m < 60
    requires name != [] && NoSpace(name) && name[0] != '@'
    requires ws != [] && forall k :: 0 <= k < |ws| ==> ws[k] != [] && NoSpace(ws[k]) && WordStart(ws[k][0])
    ensures NewTask(Some(Join(" ", ["@" + name] + (ws + [IsoDate(d), ClockText(h, m)]))), ctx) ==
      Schedule(ctx, Some(name), Join(" ", ws), Moment(d, h, m))
  {
    var tail := ws + [IsoDate(d), ClockText(h, m)];
    var args := Join(" ", ["@" + name] + tail);
    DateAndTimeRead(name, ws, d, h, m, ctx.now);
    DeadlineFoundSchedules(args, ctx, Arguments(Some(name), tail), Moment(d, h, m), Join(" ", ws));
  }

  /** The arguments of `DateAndTimeDeadline` as read: the mention, the words, and the deadline after them. */
  lemma DateAndTimeRead(name: string, ws: seq<string>, d: Date, h: int, m: int, now: Moment)
    requires ValidMoment(now) && ValidDate(d) && d.year >= 1000 && 0 <= h < 24 && 0 <= m < 60
    requires name != [] && NoSpace(name) && name[0] != '@'
    requires ws != [] && forall k :: 0 <= k < |ws| ==> ws[k] != [] && NoSpace(ws[k]) && WordStart(ws[k][0])
    ensures var tail := ws + [IsoDate(d), ClockText(h, m)];
      var args := Join(" ", ["@" + name] + tail);
      && args != [] && ParseArgs(args) == Some(Arguments(Some(name), tail))
      && Join(" ", ws) != []
      && LongestDeadline(tail, DeadlineParser(now)) == Some((Moment(d, h, m), Join(" ", ws)))
  {
    MentionThenDateTime(name, ws, d, h, m);
    assert ws[0] != [];
    JoinCoversFirst(" ", ws);
    LongestTakesDateAndTime(ws, d, h, m, now);
  }
}
