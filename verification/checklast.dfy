/**
 * The `/checklast` flow of bot/main.py: a keyboard listing recent messages
 * with a check mark each, the per-user selection set that the buttons
 * toggle, and the "create" step that turns the selected messages into tasks
 * in list order.
 */
module Checklast {
  import opened Wrappers
  import opened Text
  import opened Markup
  import opened BotHelpers

  // ---------------------------------------------------------------- keyboard

  /** A listed message as the keyboard reads it from the stored JSON rows. */
  datatype ListedRow = ListedRow(messageId: Option<int>, id: Option<int>, text: Option<string>, idx: int)

  /** `r.get("message_id", r.get("id", 0))`: older rows carry only `id`. */
  function RowMessageId(r: ListedRow): int {
    match r.messageId
    case Some(m) => m
    case None => r.id.GetOr(0)
  }

  const Checked := "☑️"
  const Unchecked := "⬜️"

  function ToggleCallback(mid: int): string {
    "cl:toggle:" + IntToString(mid)
  }

  /** The button of one listed message: mark, list number, a 40-character quote. */
  function RowButton(r: ListedRow, selected: set<int>): Button {
    var mid := RowMessageId(r);
    Button((if mid in selected then Checked else Unchecked) + " " + IntToString(r.idx) + ") " + Quote(r.text, 40),
           ToggleCallback(mid))
  }

  function CreateRow(selected: set<int>): seq<Button> {
    [Button("✅ Создать задачи (" + IntToString(|selected|) + ")", "cl:create")]
  }

  const ResetRow := [Button("♻️ Сброс", "cl:reset"), Button("✖️ Отмена", "cl:cancel")]

  /** The rows of the listed messages, one button each. */
  function ListedButtons(rows: seq<ListedRow>, selected: set<int>): (kb: Keyboard)
    ensures |kb| == |rows|
  {
    seq(|rows|, j requires 0 <= j < |rows| => [RowButton(rows[j], selected)])
  }

  /** `build_checklast_kb`: one row per listed message, then create, then reset and cancel. */
  method BuildChecklastKb(rows: seq<ListedRow>, selected: set<int>) returns (kb: Keyboard)
    ensures |kb| == |rows| + 2
    ensures forall k :: 0 <= k < |rows| ==> kb[k] == [RowButton(rows[k], selected)]
    ensures kb[|rows|] == CreateRow(selected) && kb[|rows| + 1] == ResetRow
  {
    ghost var want := ListedButtons(rows, selected);
    kb := [];
    for k := 0 to |rows|
      invariant kb == want[..k]
    {
      var r := rows[k];
      var mid := RowMessageId(r);
      var checked := if mid in selected then Checked else Unchecked;
      var title := Quote(Some(r.text.GetOr("")), 40);
      var button := Button(checked + " " + IntToString(r.idx) + ") " + title, "cl:toggle:" + IntToString(mid));
      assert want[k] == [button] by {
        assert title == Quote(r.text, 40);
      }
      PrefixExtend(want, k);
      kb := kb + [[button]];
    }
    assert kb == want;
    kb := kb + [CreateRow(selected), ResetRow];
  }

  // ---------------------------------------------------------------- toggle callback

  /** `s.partition(sep)[2]`: the text after the first occurrence of sep, or "". */
  function PartitionTail(s: string, sep: string): (r: string)
    requires sep != []
    ensures |r| <= |s|
    decreases |s|
  {
    if |s| < |sep| then ""
    else if s[..|sep|] == sep then s[|sep|..]
    else PartitionTail(s[1..], sep)
  }

  /**
   * When no character before the separator can start it, partition splits
   * at that separator.
   */
  lemma {:induction false} PartitionTailAfter(pre: string, sep: string, rest: string)
    requires sep != [] && sep[0] !in pre
    ensures PartitionTail(pre + sep + rest, sep) == rest
  {
    var s := pre + sep + rest;
    if pre == [] {
      assert s == sep + rest;
      assert s[..|sep|] == sep;
    } else {
      assert s[..|sep|][0] == pre[0] != sep[0];
      assert s[1..] == pre[1..] + sep + rest;
      PartitionTailAfter(pre[1..], sep, rest);
    }
  }

  const ToggleSep := ":toggle:"

  /** The toggle handler reads back exactly the message id the button was made for. */
  lemma ToggleCallbackRoundTrip(mid: int)
    ensures PartitionTail(ToggleCallback(mid), ToggleSep) == IntToString(mid)
    ensures PyInt(PartitionTail(ToggleCallback(mid), ToggleSep)) == Some(mid)
  {
    assert ToggleCallback(mid) == "cl" + ToggleSep + IntToString(mid);
    PartitionTailAfter("cl", ToggleSep, IntToString(mid));
    IntToStringRoundTrip(mid);
  }

  // ---------------------------------------------------------------- selection set

  /** The selection with x added if absent and removed if present. */
  function Toggled(s: set<string>, x: string): (r: set<string>)
    ensures x in r <==> x !in s
    ensures forall y :: y != x ==> (y in r <==> y in s)
  {
    if x in s then s - {x} else s + {x}
  }

  /** The Redis set `checklast:<chat>:<user>:sel`, holding message ids as text. */
  class Selection {
    var members: set<string>

    constructor ()
      ensures members == {}
    {
      members := {};
    }

    /** `checklast_toggle`: remove the id if it is there, add it otherwise. */
    method Toggle(rawId: string)
      modifies this
      ensures members == Toggled(old(members), rawId)
    {
      var present := rawId in members;
      if present {
        members := members - {rawId};
      } else {
        members := members + {rawId};
      }
    }

    /** `checklast_reset`: the set is deleted. */
    method Reset()
      modifies this
      ensures members == {}
    {
      members := {};
    }
  }

  /** Toggling the same id twice leaves the selection as it was. */
  lemma ToggleTwice(s: set<string>, x: string)
    ensures Toggled(Toggled(s, x), x) == s
  {
  }

  /** `set(map(int, selected))`. */
  function SelectedIds(members: set<string>): set<int>
    requires forall m :: m in members ==> PyInt(m).Some?
  {
    set m | m in members :: PyInt(m).value
  }

  /** Members as the toggle buttons write them: each is `str` of its number. */
  predicate Canonical(members: set<string>) {
    forall m :: m in members ==> PyInt(m).Some? && m == IntToString(PyInt(m).value)
  }

  /**
   * Pressing a row's button flips that row's mark and no other, as long as
   * the set holds only what the buttons put there.
   */
  lemma ToggleFlipsMark(members: set<string>, mid: int, other: int)
    requires Canonical(members) && other != mid
    ensures Canonical(Toggled(members, IntToString(mid)))
    ensures mid in SelectedIds(Toggled(members, IntToString(mid))) <==> mid !in SelectedIds(members)
    ensures other in SelectedIds(Toggled(members, IntToString(mid))) <==> other in SelectedIds(members)
  {
    var x := IntToString(mid);
    IntToStringRoundTrip(mid);
    var after := Toggled(members, x);
    assert forall m :: m in members ==> (PyInt(m).value == mid <==> m == x);
    assert forall m :: m in after ==> (PyInt(m).value == mid <==> m == x);
    if mid in SelectedIds(members) {
      var m :| m in members && PyInt(m).value == mid;
    }
    if mid in SelectedIds(after) {
      var m :| m in after && PyInt(m).value == mid;
    }
    if other in SelectedIds(members) {
      var m :| m in members && PyInt(m).value == other;
      assert m != x && m in after;
    }
    if other in SelectedIds(after) {
      var m :| m in after && PyInt(m).value == other;
      assert m != x && m in members;
    }
  }

  // ---------------------------------------------------------------- create

  /** A stored row as `checklast_create` reads it. */
  datatype StoredRow = StoredRow(messageId: int, idx: Option<int>, text: string, topicId: Option<int>)

  /** `rd.get("idx", 0)`, the sort key. */
  function SortKey(r: StoredRow): int {
    r.idx.GetOr(0)
  }

  predicate SortedByIdx(s: seq<StoredRow>) {
    forall i, j :: 0 <= i < j < |s| ==> SortKey(s[i]) <= SortKey(s[j])
  }

  /** `[rd for rd in rows if int(rd["message_id"]) in selected_ids]`. */
  function Picked(rows: seq<StoredRow>, selected: set<int>): (r: seq<StoredRow>)
    ensures forall x :: x in r <==> x in rows && x.messageId in selected
    ensures multiset(r) <= multiset(rows)
  {
    if rows == [] then []
    else
      var last := rows[|rows| - 1];
      assert rows == rows[..|rows| - 1] + [last];
      Picked(rows[..|rows| - 1], selected) + (if last.messageId in selected then [last] else [])
  }

  lemma AppendSorted(s: seq<StoredRow>, y: StoredRow)
    requires SortedByIdx(s)
    requires forall i :: 0 <= i < |s| ==> SortKey(s[i]) <= SortKey(y)
    ensures SortedByIdx(s + [y])
  {
  }

  /** Places x after every element whose key is not larger, as a stable sort does. */
  function Insert(t: seq<StoredRow>, x: StoredRow): (r: seq<StoredRow>)
    requires SortedByIdx(t)
    ensures SortedByIdx(r)
    ensures multiset(r) == multiset(t) + multiset{x}
  {
    if t == [] || SortKey(t[|t| - 1]) <= SortKey(x) then
      AppendSorted(t, x);
      t + [x]
    else
      var last := t[|t| - 1];
      var init := t[..|t| - 1];
      assert t == init + [last];
      var rest := Insert(init, x);
      assert forall i :: 0 <= i < |rest| ==> SortKey(rest[i]) <= SortKey(last) by {
        forall i | 0 <= i < |rest| ensures SortKey(rest[i]) <= SortKey(last) {
          var e := rest[i];
          assert e in multiset(rest);
          if e != x {
            assert e in multiset(init);
            var j :| 0 <= j < |init| && init[j] == e;
            assert t[j] == e;
          }
        }
      }
      AppendSorted(rest, last);
      rest + [last]
  }

  /** `list.sort(key=...)` on the idx key. */
  function SortByIdx(s: seq<StoredRow>): (r: seq<StoredRow>)
    ensures SortedByIdx(r)
    ensures multiset(r) == multiset(s)
  {
    if s == [] then []
    else
      assert s == s[..|s| - 1] + [s[|s| - 1]];
      Insert(SortByIdx(s[..|s| - 1]), s[|s| - 1])
  }

  /** The rows with sort key k, in their order in s. */
  function WithKey(s: seq<StoredRow>, k: int): seq<StoredRow> {
    if s == [] then []
    else WithKey(s[..|s| - 1], k) + (if SortKey(s[|s| - 1]) == k then [s[|s| - 1]] else [])
  }

  lemma {:induction false} WithKeyConcat(a: seq<StoredRow>, b: seq<StoredRow>, k: int)
    ensures WithKey(a + b, k) == WithKey(a, k) + WithKey(b, k)
    decreases |b|
  {
    if b == [] {
      assert a + b == a;
    } else {
      assert (a + b)[..|a + b| - 1] == a + b[..|b| - 1];
      WithKeyConcat(a, b[..|b| - 1], k);
    }
  }

  lemma WithKeySingle(x: StoredRow, k: int)
    ensures WithKey([x], k) == if SortKey(x) == k then [x] else []
  {
    assert [x][..0] == [];
  }

  /** Two filtered pieces of which one is empty may be swapped. */
  lemma SwapOneEmpty(a: seq<StoredRow>, b: seq<StoredRow>, c: seq<StoredRow>)
    requires b == [] || c == []
    ensures a + b + c == a + c + b
  {
  }

  lemma {:induction false} InsertStable(t: seq<StoredRow>, x: StoredRow, k: int)
    requires SortedByIdx(t)
    ensures WithKey(Insert(t, x), k) == WithKey(t, k) + WithKey([x], k)
    decreases |t|
  {
    if t == [] || SortKey(t[|t| - 1]) <= SortKey(x) {
      WithKeyConcat(t, [x], k);
    } else {
      var last := t[|t| - 1];
      var init := t[..|t| - 1];
      assert t == init + [last];
      var rest := Insert(init, x);
      assert Insert(t, x) == rest + [last];
      InsertStable(init, x, k);
      WithKeyConcat(rest, [last], k);
      WithKeyConcat(init, [last], k);
      WithKeySingle(x, k);
      WithKeySingle(last, k);
      SwapOneEmpty(WithKey(init, k), WithKey([x], k), WithKey([last], k));
    }
  }

  /** Rows with equal idx keep their relative order: the sort is stable. */
  lemma {:induction false} SortStable(s: seq<StoredRow>, k: int)
    ensures WithKey(SortByIdx(s), k) == WithKey(s, k)
  {
    if s != [] {
      var init := s[..|s| - 1];
      assert s == init + [s[|s| - 1]];
      SortStable(init, k);
      InsertStable(SortByIdx(init), s[|s| - 1], k);
      WithKeyConcat(init, [s[|s| - 1]], k);
    }
  }

  /**
   * `checklast_create`, for a sender who passed the can-assign check:
   * nothing when no message is selected; otherwise the selected stored rows
   * in list order.
   */
  function CreateSelection(selected: set<int>, rows: seq<StoredRow>): (r: Option<seq<StoredRow>>)
    ensures r.None? <==> selected == {}
    ensures r.Some? ==> SortedByIdx(r.value) && multiset(r.value) == multiset(Picked(rows, selected))
  {
    if selected == {} then None else Some(SortByIdx(Picked(rows, selected)))
  }

  /** Create takes exactly the selected rows, each as often as stored, ordered by idx. */
  lemma CreateTakesSelectedInOrder(selected: set<int>, rows: seq<StoredRow>)
    ensures CreateSelection(selected, rows).None? <==> selected == {}
    ensures CreateSelection(selected, rows).Some? ==>
      var out := CreateSelection(selected, rows).value;
      && SortedByIdx(out)
      && multiset(out) == multiset(Picked(rows, selected))
      && (forall x :: x in out <==> x in rows && x.messageId in selected)
      && forall k :: WithKey(out, k) == WithKey(Picked(rows, selected), k)
  {
    if selected != {} {
      forall k ensures WithKey(SortByIdx(Picked(rows, selected)), k) == WithKey(Picked(rows, selected), k) {
        SortStable(Picked(rows, selected), k);
      }
      var out := SortByIdx(Picked(rows, selected));
      forall x ensures x in out <==> x in Picked(rows, selected) {
        assert x in out <==> x in multiset(out);
      }
    }
  }

  // ---------------------------------------------------------------- report

  /** `_quote(text, 60)`: how a created task is cited in the report. */
  function Title(row: StoredRow): (r: string)
    ensures '\n' !in r && |r| <= 61
  {
    Quote(Some(row.text), 60)
  }

  function CreatedTitles(ordered: seq<StoredRow>, inserted: seq<bool>): (r: seq<string>)
    requires |inserted| == |ordered|
    ensures |r| <= |ordered|
    ensures forall i :: 0 <= i < |r| ==> '\n' !in r[i] && |r[i]| <= 61
  {
    if ordered == [] then []
    else
      var rest := CreatedTitles(ordered[1..], inserted[1..]);
      if inserted[0] then
        var t := Title(ordered[0]);
        PrependShortLine(t, rest);
        [t] + rest
      else rest
  }

  lemma PrependShortLine(t: string, rest: seq<string>)
    requires '\n' !in t && |t| <= 61
    requires forall i :: 0 <= i < |rest| ==> '\n' !in rest[i] && |rest[i]| <= 61
    ensures forall i :: 0 <= i < |[t] + rest| ==> '\n' !in ([t] + rest)[i] && |([t] + rest)[i]| <= 61
  {
    forall i | 0 <= i < |[t] + rest| ensures '\n' !in ([t] + rest)[i] && |([t] + rest)[i]| <= 61 {
      if i > 0 { assert ([t] + rest)[i] == rest[i - 1]; }
    }
  }

  /** Every row whose insert succeeded gets its title in the report, in order. */
  lemma {:induction false} AllInsertedAllReported(ordered: seq<StoredRow>, inserted: seq<bool>)
    requires |inserted| == |ordered|
    requires forall i :: 0 <= i < |inserted| ==> inserted[i]
    ensures var r := CreatedTitles(ordered, inserted);
      |r| == |ordered| && forall i :: 0 <= i < |r| ==> r[i] == Title(ordered[i])
  {
    if ordered != [] {
      AllInsertedAllReported(ordered[1..], inserted[1..]);
      var rest := CreatedTitles(ordered[1..], inserted[1..]);
      var r := CreatedTitles(ordered, inserted);
      assert r == [Title(ordered[0])] + rest;
      forall i | 0 < i < |r| ensures r[i] == Title(ordered[i]) {
        assert r[i] == rest[i - 1] && ordered[i] == ordered[1..][i - 1];
      }
    }
  }

  const OneCreated := "📌 Задача создана:"
  const ManyCreated := "✅ Создано задач: "
  const QuotesLine := "Цитаты из чата:"
  const NoneCreated := "❌ Задачи не созданы"

  /** `f"{i+1}) «{t}»"`. */
  function Entry(i: nat, t: string): string {
    IntToString(i + 1) + ") «" + t + "»"
  }

  function Entries(titles: seq<string>): (r: seq<string>)
    ensures |r| == |titles|
  {
    seq(|titles|, i requires 0 <= i < |titles| => Entry(i, titles[i]))
  }

  /** The message sent after creating: one quote, a numbered list, or a failure. */
  function CreateSummary(titles: seq<string>): (r: string)
    ensures r == NoneCreated <==> titles == []
    ensures |titles| == 1 ==> StartsWith(r, OneCreated)
    ensures |titles| >= 2 ==> StartsWith(r, ManyCreated + IntToString(|titles|))
  {
    if |titles| == 1 then
      var r := OneCreated + "\n" + Entry(0, titles[0]);
      assert r[..|OneCreated|] == OneCreated && r[0] == OneCreated[0] != NoneCreated[0];
      r
    else if titles != [] then
      var head := ManyCreated + IntToString(|titles|);
      var r := head + "\n" + "\n" + QuotesLine + "\n" + Join("\n", Entries(titles));
      assert r[..|head|] == head && r[0] == ManyCreated[0] != NoneCreated[0];
      r
    else NoneCreated
  }

  lemma EntryOneLine(i: nat, t: string)
    requires '\n' !in t
    ensures '\n' !in Entry(i, t)
  {
    IntToStringChars(i + 1);
  }

  /**
   * Read line by line, the report of several tasks is its header, a blank
   * line, the caption, and one numbered line per created task, in order.
   */
  lemma SummaryLines(titles: seq<string>)
    requires |titles| >= 2
    requires forall i :: 0 <= i < |titles| ==> '\n' !in titles[i]
    ensures SplitOn(CreateSummary(titles), '\n') ==
      [ManyCreated + IntToString(|titles|), "", QuotesLine] + Entries(titles)
  {
    var lines := [ManyCreated + IntToString(|titles|), "", QuotesLine] + Entries(titles);
    SummaryIsJoin(titles);
    SummaryLinesOneLine(titles);
    SplitOnJoin(lines, '\n');
  }

  /** The report of several tasks is its lines joined by newlines. */
  lemma SummaryIsJoin(titles: seq<string>)
    requires |titles| >= 2
    ensures CreateSummary(titles) ==
      Join("\n", [ManyCreated + IntToString(|titles|), "", QuotesLine] + Entries(titles))
  {
    var es := Entries(titles);
    var head := ManyCreated + IntToString(|titles|);
    var lines := [head, "", QuotesLine] + es;
    assert lines[1..] == ["", QuotesLine] + es;
    assert lines[2..] == [QuotesLine] + es;
    assert lines[3..] == es;
    assert es != [] by { assert |es| == |titles|; }
    assert Join("\n", lines[2..]) == QuotesLine + "\n" + Join("\n", es);
    assert Join("\n", lines[1..]) == "" + "\n" + Join("\n", lines[2..]);
    assert Join("\n", lines) == head + "\n" + Join("\n", lines[1..]);
    ConcatRegroup(head, QuotesLine, Join("\n", es), "\n");
  }

  lemma ConcatRegroup(a: string, c: string, j: string, nl: string)
    ensures a + nl + ("" + nl + (c + nl + j)) == a + nl + nl + c + nl + j
  {
    assert "" + nl == nl;
  }

  /** None of the report's lines holds a newline. */
  lemma SummaryLinesOneLine(titles: seq<string>)
    requires forall i :: 0 <= i < |titles| ==> '\n' !in titles[i]
    ensures var lines := [ManyCreated + IntToString(|titles|), "", QuotesLine] + Entries(titles);
      lines != [] && forall k :: 0 <= k < |lines| ==> '\n' !in lines[k]
  {
    var es := Entries(titles);
    var head := ManyCreated + IntToString(|titles|);
    var lines := [head, "", QuotesLine] + es;
    assert '\n' !in head by {
      IntToStringChars(|titles|);
    }
    forall k | 0 <= k < |lines| ensures '\n' !in lines[k] {
      if k >= 3 {
        assert lines[k] == es[k - 3];
        EntryOneLine(k - 3, titles[k - 3]);
      }
    }
  }

  /** A single created task is reported as one caption line and its numbered quote. */
  lemma SingleSummaryLines(t: string)
    requires '\n' !in t
    ensures SplitOn(CreateSummary([t]), '\n') == [OneCreated, Entry(0, t)]
  {
    EntryOneLine(0, t);
    assert Join("\n", [OneCreated, Entry(0, t)]) == OneCreated + "\n" + Entry(0, t);
    SplitOnJoin([OneCreated, Entry(0, t)], '\n');
  }
}
