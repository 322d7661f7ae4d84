/**
 * The text and argument helpers of bot/main.py: quoting a message in one
 * line, trimming, reading the count of `/checklast N`, the "task created"
 * reply and the Redis keys of a check-list session.
 */
module BotHelpers {
  import opened Wrappers
  import opened Text

  const Ellipsis := '…'

  function Min(a: int, b: int): int {
    if a <= b then a else b
  }

  /** Python's `t[:n]`; a negative n counts from the end. */
  function PyPrefix(t: string, n: int): (r: string)
    ensures |r| <= |t| && r == t[..|r|]
    ensures 0 <= n <= |t| ==> |r| == n
  {
    if n >= 0 then (if n <= |t| then t[..n] else t)
    else if -n <= |t| then t[..|t| + n] else []
  }

  /** `.replace("\n", " ")`. */
  function NewlinesToSpaces(s: string): (r: string)
    ensures |r| == |s| && '\n' !in r
    ensures forall i :: 0 <= i < |s| && s[i] != '\n' ==> r[i] == s[i]
  {
    seq(|s|, i requires 0 <= i < |s| => if s[i] == '\n' then ' ' else s[i])
  }

  // ---------------------------------------------------------------- _quote

  /**
   * `_quote(txt, n)`: the stripped text on one line, cut to n characters
   * with an ellipsis when longer.
   */
  function Quote(txt: Option<string>, n: int): (r: string)
    ensures '\n' !in r
    ensures n >= 0 ==> |r| <= n + 1
  {
    var t := NewlinesToSpaces(Strip(txt.GetOr("")));
    if |t| > n then PyPrefix(t, n) + [Ellipsis] else t
  }

  /** A one-line text without surrounding blanks and at most n long is shown as it is. */
  lemma QuoteKeepsShortLine(s: string, n: int)
    requires '\n' !in s && |s| <= n
    requires s == [] || (!IsSpace(s[0]) && !IsSpace(s[|s| - 1]))
    ensures Quote(Some(s), n) == s
  {
    assert Some(s).GetOr("") == s;
    StripKeepsTrimmed(s);
    NewlinesKept(s);
  }

  /** A text without newlines is left alone by the newline replacement. */
  lemma NewlinesKept(s: string)
    requires '\n' !in s
    ensures NewlinesToSpaces(s) == s
  {
  }

  /** A longer text keeps its first n characters, newlines turned into blanks. */
  lemma QuoteCutsLongLine(s: string, n: nat)
    requires n < |s|
    requires !IsSpace(s[0]) && !IsSpace(s[|s| - 1])
    ensures Quote(Some(s), n) == NewlinesToSpaces(s)[..n] + [Ellipsis]
    ensures forall i :: 0 <= i < n && s[i] != '\n' ==> Quote(Some(s), n)[i] == s[i]
  {
    StripKeepsTrimmed(s);
  }

  // ---------------------------------------------------------------- _trim_text

  /** `_trim_text(text, length)`. */
  function TrimText(text: Option<string>, length: int): (r: string)
    ensures text.None? || text == Some("") ==> r == "(no text)"
    ensures text.Some? && text.value != "" && length >= 1 ==> |r| <= length
  {
    if text.None? || text.value == "" then "(no text)"
    else
      var t := Strip(text.value);
      if |t| <= length then t else PyPrefix(t, length - 1) + [Ellipsis]
  }

  /** A text of blanks only is not "no text": it trims to the empty string. */
  lemma TrimTextOfBlanks(s: string, length: int)
    requires s != "" && AllSpace(s) && length >= 0
    ensures TrimText(Some(s), length) == ""
  {
    StripIgnoresPadding(s, [], []);
    assert s + [] + [] == s;
  }

  /** A stripped text within the length is returned unchanged. */
  lemma TrimTextKeepsShort(s: string, length: int)
    requires s != "" && !IsSpace(s[0]) && !IsSpace(s[|s| - 1]) && |s| <= length
    ensures TrimText(Some(s), length) == s
  {
    StripKeepsTrimmed(s);
  }

  // ---------------------------------------------------------------- _parse_count_arg

  /**
   * `_parse_count_arg`: the second word of the command as a count, at least
   * 1 and at most `maxCount`; the default when it is missing or not a number.
   */
  function ParseCountArg(commandText: Option<string>, defaultCount: int, maxCount: int): (r: int)
    ensures commandText.None? || commandText == Some("") ==> r == defaultCount
    ensures r == defaultCount || r == 1 || r <= maxCount
  {
    if commandText.None? || commandText.value == "" then defaultCount
    else
      var parts := Words(Strip(commandText.value));
      if |parts| <= 1 then defaultCount
      else
        match PyInt(parts[1])
        case None => defaultCount
        case Some(n) => if n < 1 then 1 else Min(n, maxCount)
  }

  /** With a sensible default the count always lies in 1..maxCount. */
  lemma CountArgInRange(commandText: Option<string>, defaultCount: int, maxCount: int)
    requires 1 <= defaultCount <= maxCount
    ensures 1 <= ParseCountArg(commandText, defaultCount, maxCount) <= maxCount
  {
  }

  /** `/checklast N` reads N back, raised to 1 and capped at maxCount. */
  lemma CountArgOfCommand(cmd: string, n: int, defaultCount: int, maxCount: int)
    requires cmd != [] && NoSpace(cmd)
    ensures ParseCountArg(Some(cmd + " " + IntToString(n)), defaultCount, maxCount)
      == if n < 1 then 1 else Min(n, maxCount)
  {
    var num := IntToString(n);
    var s := cmd + " " + num;
    IntToStringNoSpace(n);
    assert s == Join(" ", [cmd, num]);
    assert s[0] == cmd[0] && s[|s| - 1] == num[|num| - 1];
    StripKeepsTrimmed(s);
    WordsOfJoin([cmd, num]);
    IntToStringRoundTrip(n);
  }

  /** A command without a second word gives the default. */
  lemma CountArgMissing(cmd: string, defaultCount: int, maxCount: int)
    requires cmd != [] && NoSpace(cmd)
    ensures ParseCountArg(Some(cmd), defaultCount, maxCount) == defaultCount
  {
    StripKeepsTrimmed(cmd);
    WordsOfWord(cmd);
  }

  /** A second word that `int()` rejects gives the default (the `except ValueError` branch). */
  lemma CountArgNotANumber(cmd: string, w: string, defaultCount: int, maxCount: int)
    requires cmd != [] && NoSpace(cmd) && w != [] && NoSpace(w) && PyInt(w).None?
    ensures ParseCountArg(Some(cmd + " " + w), defaultCount, maxCount) == defaultCount
  {
    var s := cmd + " " + w;
    assert s == Join(" ", [cmd, w]);
    assert s[0] == cmd[0] && s[|s| - 1] == w[|w| - 1];
    StripKeepsTrimmed(s);
    WordsOfJoin([cmd, w]);
  }

  // ---------------------------------------------------------------- format_task_created_response

  function IdTags(ids: seq<int>): (tags: seq<string>)
    ensures |tags| == |ids|
  {
    seq(|ids|, k requires 0 <= k < |ids| => "#" + IntToString(ids[k]))
  }

  const SingleHeader := "📌 Задача добавлена в планировщик, id #"
  const CountHeader := "📌 Добавлено задач: "
  const IdsCaption := ". Первые id: "

  /** `format_task_created_response(count, ids)`. */
  function TaskCreatedResponse(count: int, ids: Option<seq<int>>): string {
    if count <= 1 && ids.Some? && ids.value != [] then
      "📌 Задача добавлена в планировщик, id #" + IntToString(ids.value[0])
    else if ids.None? || ids.value == [] then
      "📌 Добавлено задач: " + IntToString(count)
    else
      "📌 Добавлено задач: " + IntToString(count) + ". Первые id: "
        + Join(", ", IdTags(ids.value[..Min(5, |ids.value|)]))
  }

  /** Number of occurrences of a character. */
  function Occurrences(s: string, c: char): (n: nat)
    ensures n <= |s|
    ensures n == 0 <==> c !in s
  {
    if s == [] then 0 else Occurrences(s[..|s| - 1], c) + (if s[|s| - 1] == c then 1 else 0)
  }

  lemma {:induction false} OccurrencesConcat(a: string, b: string, c: char)
    ensures Occurrences(a + b, c) == Occurrences(a, c) + Occurrences(b, c)
    decreases |b|
  {
    if b == [] {
      assert a + b == a;
    } else {
      assert (a + b)[..|a + b| - 1] == a + b[..|b| - 1];
      OccurrencesConcat(a, b[..|b| - 1], c);
    }
  }

  lemma NoHashInNumber(n: int)
    ensures Occurrences(IntToString(n), '#') == 0
  {
    IntToStringChars(n);
  }

  /** Each listed id carries one '#'. */
  lemma {:induction false} HashesInTags(ids: seq<int>)
    ensures Occurrences(Join(", ", IdTags(ids)), '#') == |ids|
    decreases |ids|
  {
    var tags := IdTags(ids);
    if |ids| == 1 {
      OccurrencesConcat("#", IntToString(ids[0]), '#');
      NoHashInNumber(ids[0]);
    } else if |ids| > 1 {
      HashesInTags(ids[1..]);
      assert IdTags(ids[1..]) == tags[1..];
      OccurrencesConcat("#", IntToString(ids[0]), '#');
      NoHashInNumber(ids[0]);
      OccurrencesConcat(tags[0], ", ", '#');
      OccurrencesConcat(tags[0] + ", ", Join(", ", tags[1..]), '#');
    }
  }

  lemma ResponsePrefixes()
    ensures '#' !in SingleHeader[..|SingleHeader| - 1] && SingleHeader[|SingleHeader| - 1] == '#'
    ensures '#' !in CountHeader && '#' !in IdsCaption
  {
  }

  /**
   * One id is quoted for a single task; none without ids; otherwise the
   * first five at most, each once.
   */
  lemma ResponseListsIds(count: int, ids: Option<seq<int>>)
    ensures Occurrences(TaskCreatedResponse(count, ids), '#') ==
      if ids.None? || ids.value == [] then 0
      else if count <= 1 then 1
      else Min(5, |ids.value|)
  {
    ResponsePrefixes();
    var r := TaskCreatedResponse(count, ids);
    NoHashInNumber(count);
    if count <= 1 && ids.Some? && ids.value != [] {
      var pre := SingleHeader[..|SingleHeader| - 1];
      assert SingleHeader == pre + "#";
      OccurrencesConcat(pre, "#", '#');
      OccurrencesConcat(SingleHeader, IntToString(ids.value[0]), '#');
      NoHashInNumber(ids.value[0]);
    } else if ids.None? || ids.value == [] {
      OccurrencesConcat(CountHeader, IntToString(count), '#');
    } else {
      var head := CountHeader + IntToString(count);
      OccurrencesConcat(CountHeader, IntToString(count), '#');
      OccurrencesConcat(head, IdsCaption, '#');
      var shown := ids.value[..Min(5, |ids.value|)];
      HashesInTags(shown);
      OccurrencesConcat(head + IdsCaption, Join(", ", IdTags(shown)), '#');
    }
  }

  /** Reading one listed id back: blanks stripped, the '#' dropped, the rest through `int()`. */
  function ReadTag(piece: string): Option<int> {
    var t := Strip(piece);
    if t != [] && t[0] == '#' then PyInt(t[1..]) else None
  }

  /** Reading a ", "-joined id list back, piece by piece between the commas. */
  function ReadTags(s: string): (r: seq<Option<int>>)
    ensures |r| == |SplitOn(s, ',')|
  {
    var pieces := SplitOn(s, ',');
    seq(|pieces|, k requires 0 <= k < |pieces| => ReadTag(pieces[k]))
  }

  lemma TagReadBack(n: int)
    ensures ReadTag("#" + IntToString(n)) == Some(n)
  {
    ReadHashTag(IntToString(n));
    IntToStringRoundTrip(n);
  }

  lemma ReadHashTag(num: string)
    requires num != [] && !IsSpace(num[|num| - 1])
    ensures ReadTag("#" + num) == PyInt(num)
  {
    var t := "#" + num;
    assert t[1..] == num;
    assert Strip(t) == t by {
      assert t[|t| - 1] == num[|num| - 1];
      StripKeepsTrimmed(t);
    }
  }

  lemma SpacedTagReadBack(n: int)
    ensures ReadTag(" " + ("#" + IntToString(n))) == Some(n)
  {
    var t := "#" + IntToString(n);
    assert " " + t + "" == " " + t;
    StripIgnoresPadding(" ", t, "");
    TagReadBack(n);
  }

  lemma NoCommaInTag(n: int)
    ensures ',' !in "#" + IntToString(n) && ',' !in " " + ("#" + IntToString(n))
  {
    IntToStringChars(n);
  }

  /** The listed ids read back, in order, as exactly the ids given. */
  lemma TagsReadBack(ids: seq<int>)
    requires ids != []
    ensures var r := ReadTags(Join(", ", IdTags(ids)));
      |r| == |ids| && forall k :: 0 <= k < |ids| ==> r[k] == Some(ids[k])
  {
    var tags := IdTags(ids);
    var pieces := [tags[0]] + Spaced(tags[1..]);
    JoinCommaSpace(tags);
    TagPiecesCommaFree(ids);
    TagPiecesRead(ids);
    SplitOnJoin(pieces, ',');
  }

  /** The pieces between the commas of the joined tags hold no comma. */
  lemma TagPiecesCommaFree(ids: seq<int>)
    requires ids != []
    ensures var tags := IdTags(ids);
      var pieces := [tags[0]] + Spaced(tags[1..]);
      && |pieces| == |ids|
      && forall k :: 0 <= k < |pieces| ==> ',' !in pieces[k]
  {
    var tags := IdTags(ids);
    var pieces := [tags[0]] + Spaced(tags[1..]);
    forall k | 0 <= k < |pieces|
      ensures ',' !in pieces[k]
    {
      var tag := "#" + IntToString(ids[k]);
      assert tags[k] == tag;
      assert pieces[k] == if k > 0 then " " + tag else tag;
      PieceReadBack(ids[k], k > 0);
    }
  }

  /** Each piece between the commas of the joined tags reads back as its id. */
  lemma TagPiecesRead(ids: seq<int>)
    requires ids != []
    ensures var tags := IdTags(ids);
      var pieces := [tags[0]] + Spaced(tags[1..]);
      && |pieces| == |ids|
      && forall k :: 0 <= k < |pieces| ==> ReadTag(pieces[k]) == Some(ids[k])
  {
    forall k | 0 <= k < |ids|
      ensures var tags := IdTags(ids); ReadTag(([tags[0]] + Spaced(tags[1..]))[k]) == Some(ids[k])
    {
      TagPieceRead(ids, k);
    }
  }

  /** The piece at index `k`: the tag of `ids[k]`, after a blank unless it is the first. */
  lemma TagPieceRead(ids: seq<int>, k: int)
    requires 0 <= k < |ids|
    ensures var tags := IdTags(ids); ReadTag(([tags[0]] + Spaced(tags[1..]))[k]) == Some(ids[k])
  {
    var tags := IdTags(ids);
    var tag := "#" + IntToString(ids[k]);
    assert tags[k] == tag;
    assert ([tags[0]] + Spaced(tags[1..]))[k] == if k > 0 then " " + tag else tag;
    PieceReadBack(ids[k], k > 0);
  }

  /** One tag, with or without the blank that `", "` leaves in front of it. */
  lemma PieceReadBack(n: int, spaced: bool)
    ensures var tag := "#" + IntToString(n);
      var piece := if spaced then " " + tag else tag;
      ',' !in piece && ReadTag(piece) == Some(n)
  {
    NoCommaInTag(n);
    if spaced {
      SpacedTagReadBack(n);
    } else {
      TagReadBack(n);
    }
  }

  /** The single-task reply names the first id: `int()` of what follows the '#' gives it back. */
  lemma SingleResponseNamesId(count: int, ids: seq<int>)
    requires count <= 1 && ids != []
    ensures var r := TaskCreatedResponse(count, Some(ids));
      StartsWith(r, SingleHeader) && PyInt(r[|SingleHeader|..]) == Some(ids[0])
  {
    var r := TaskCreatedResponse(count, Some(ids));
    assert r[|SingleHeader|..] == IntToString(ids[0]);
    IntToStringRoundTrip(ids[0]);
  }

  /** The list reply names `ids[:5]`: after the caption, the tags read back as those ids, in order. */
  lemma ListResponseNamesIds(count: int, ids: seq<int>)
    requires count > 1 && ids != []
    ensures var r := TaskCreatedResponse(count, Some(ids));
      var head := CountHeader + IntToString(count) + IdsCaption;
      var shown := ids[..Min(5, |ids|)];
      && StartsWith(r, head)
      && |ReadTags(r[|head|..])| == |shown|
      && forall k :: 0 <= k < |shown| ==> ReadTags(r[|head|..])[k] == Some(shown[k])
  {
    var r := TaskCreatedResponse(count, Some(ids));
    var head := CountHeader + IntToString(count) + IdsCaption;
    var shown := ids[..Min(5, |ids|)];
    assert r == head + Join(", ", IdTags(shown));
    assert r[|head|..] == Join(", ", IdTags(shown));
    TagsReadBack(shown);
  }

  // ---------------------------------------------------------------- check-list keys

  const KeyPrefix := "checklast"

  /** `_cl_rows_key`. */
  function RowsKey(chatId: int, userId: int): (r: string)
    ensures SplitOn(r, ':') == [KeyPrefix, IntToString(chatId), IntToString(userId), "rows"]
  {
    KeyFields(chatId, userId, "rows");
    KeyPrefix + ":" + IntToString(chatId) + ":" + IntToString(userId) + ":" + "rows"
  }

  /** `_cl_sel_key`. */
  function SelKey(chatId: int, userId: int): (r: string)
    ensures SplitOn(r, ':') == [KeyPrefix, IntToString(chatId), IntToString(userId), "sel"]
  {
    KeyFields(chatId, userId, "sel");
    KeyPrefix + ":" + IntToString(chatId) + ":" + IntToString(userId) + ":" + "sel"
  }

  lemma KeyFields(chatId: int, userId: int, suffix: string)
    requires ':' !in suffix
    ensures SplitOn(KeyPrefix + ":" + IntToString(chatId) + ":" + IntToString(userId) + ":" + suffix, ':')
      == [KeyPrefix, IntToString(chatId), IntToString(userId), suffix]
  {
    NoColonInNumber(chatId);
    NoColonInNumber(userId);
    assert ':' !in KeyPrefix;
    SplitFourFields(KeyPrefix, IntToString(chatId), IntToString(userId), suffix, ':', ":");
  }

  lemma NoColonInNumber(n: int)
    ensures ':' !in IntToString(n)
  {
    IntToStringChars(n);
  }

  /** Each chat member's session has its own keys, and the two keys never coincide. */
  lemma KeysIdentifySession(c1: int, u1: int, c2: int, u2: int)
    ensures RowsKey(c1, u1) == RowsKey(c2, u2) ==> c1 == c2 && u1 == u2
    ensures SelKey(c1, u1) == SelKey(c2, u2) ==> c1 == c2 && u1 == u2
    ensures RowsKey(c1, u1) != SelKey(c2, u2)
  {
    KeyFields(c1, u1, "rows");
    KeyFields(c2, u2, "rows");
    KeyFields(c1, u1, "sel");
    KeyFields(c2, u2, "sel");
    if RowsKey(c1, u1) == RowsKey(c2, u2) {
      IntToStringInjective(c1, c2);
      IntToStringInjective(u1, u2);
    }
    if SelKey(c1, u1) == SelKey(c2, u2) {
      IntToStringInjective(c1, c2);
      IntToStringInjective(u1, u2);
    }
  }
}
