/**
 * The body-part heatmap: a pure function of "today" and the stored daily
 * history records. It lays the last 365 days out as week columns (Sunday at
 * the top), colours each day by the first body part recorded for it, gives
 * each day a tooltip, and places month labels above the columns.
 */
module Heatmap {
  import opened Wrappers
  import opened Types
  import opened Calendar

  // ---- The day window ----

  /** Number of days the heatmap shows. */
  const WindowLength: nat := 365

  /** Each day is the day after the one before it: the k-th is k days after the first. */
  predicate Consecutive(s: seq<Day>) {
    forall k :: 0 <= k < |s| ==> s[k] == s[0] + k
  }

  /** The 365 days ending today, oldest first: day k of the window is today - (364 - k). */
  function Window(today: Day): (days: seq<Day>)
    ensures |days| == WindowLength
    ensures Consecutive(days)
    ensures days[|days| - 1] == today
    ensures forall d :: d in days <==> today - 364 <= d <= today
  {
    var days := seq(WindowLength, k requires 0 <= k < WindowLength => today - (364 - k));
    forall d | today - 364 <= d <= today
      ensures d in days
    {
      assert days[d - today + 364] == d;
    }
    days
  }

  // ---- The date lookup ----

  type Lookup = map<string, WorkoutHistory>

  /** Record i is the last one in the history carrying date key k. */
  predicate IsLastWithDate(history: seq<WorkoutHistory>, k: string, i: int) {
    0 <= i < |history| && history[i].date == k
    && forall j :: i < j < |history| ==> history[j].date != k
  }

  /** A last record in a prefix stays last when the next record has another date. */
  lemma LastWithDateExtend(history: seq<WorkoutHistory>, k: string, i: int)
    requires |history| > 0 && history[|history| - 1].date != k
    requires IsLastWithDate(history[..|history| - 1], k, i)
    ensures IsLastWithDate(history, k, i)
  {
    var prefix := history[..|history| - 1];
    forall j | i < j < |history|
      ensures history[j].date != k
    {
      if j < |prefix| {
        assert history[j] == prefix[j];
      }
    }
  }

  /**
   * The date lookup: every record is stored under its date, a later record
   * replacing an earlier one with the same date. A key is present exactly
   * when some record carries it, and then maps to the last such record.
   */
  function BuildLookup(history: seq<WorkoutHistory>): (m: Lookup)
    ensures forall k :: k in m <==> exists i :: 0 <= i < |history| && history[i].date == k
    ensures forall k :: k in m ==> exists i :: IsLastWithDate(history, k, i) && m[k] == history[i]
  {
    if |history| == 0 then map[]
    else
      var prefix := history[..|history| - 1];
      var h := history[|history| - 1];
      var m0 := BuildLookup(prefix);
      var m := m0[h.date := h];
      forall k | k in m
        ensures exists i :: IsLastWithDate(history, k, i) && m[k] == history[i]
      {
        if k == h.date {
          assert IsLastWithDate(history, k, |history| - 1);
        } else {
          var i :| IsLastWithDate(prefix, k, i) && m0[k] == prefix[i];
          LastWithDateExtend(history, k, i);
        }
      }
      forall k | exists i :: 0 <= i < |history| && history[i].date == k
        ensures k in m
      {
        var i :| 0 <= i < |history| && history[i].date == k;
        if i < |prefix| {
          assert prefix[i].date == k;
        }
      }
      m
  }

  /** The record shown for a date key: the entry under it, if any. */
  function RecordFor(m: Lookup, key: string): Option<WorkoutHistory> {
    if key in m then Some(m[key]) else None
  }

  /** A day counts as trained when it has a record with at least one body part. */
  predicate HasWorkout(r: Option<WorkoutHistory>) {
    r.Some? && |r.value.bodyParts| > 0
  }

  // ---- Colour ----

  /**
   * The colour of the day with date key `key`: the no-workout grey exactly
   * when the day has no record or an empty one, otherwise the colour of the
   * record's first body part (later body parts do not matter).
   */
  function DateColor(m: Lookup, key: string): (c: string)
    ensures IsHexColor(c)
    ensures c == NoWorkoutColor <==> !HasWorkout(RecordFor(m, key))
    ensures HasWorkout(RecordFor(m, key)) ==> BodyPartOfColor(c) == Some(RecordFor(m, key).value.bodyParts[0])
  {
    var r := RecordFor(m, key);
    if !HasWorkout(r) then NoWorkoutColor
    else Color(r.value.bodyParts[0])
  }

  // ---- Tooltip ----

  /** Position of the first comma in s, or |s| when there is none. */
  function CommaIndex(s: string): (i: nat)
    ensures i <= |s|
    ensures i < |s| ==> s[i] == ','
    ensures forall k :: 0 <= k < i ==> s[k] != ','
  {
    if |s| == 0 then 0
    else if s[0] == ',' then 0
    else 1 + CommaIndex(s[1..])
  }

  /** Reads a ", "-separated list of tags back; None when any piece is not a tag. */
  function ParseTags(s: string): Option<seq<BodyPart>>
    decreases |s|
  {
    var i := CommaIndex(s);
    match ParseTag(s[..i])
    case None => None
    case Some(b) =>
      if i == |s| then Some([b])
      else if i + 1 < |s| && s[i + 1] == ' ' then
        match ParseTags(s[i + 2..])
        case None => None
        case Some(rest) => Some([b] + rest)
      else None
  }

  /** A lone tag parses as a one-element list. */
  lemma ParseSingleTag(b: BodyPart)
    ensures ParseTags(Tag(b)) == Some([b])
  {
    var t := Tag(b);
    assert CommaIndex(t) == |t|;
    assert t[..|t|] == t;
  }

  /** A tag followed by ", " and more text parses as that tag in front of the rest. */
  lemma ParseTagThenRest(b: BodyPart, rest: string)
    ensures ParseTags(Tag(b) + ", " + rest) ==
      match ParseTags(rest)
      case None => None
      case Some(bs) => Some([b] + bs)
  {
    var t := Tag(b);
    var s := t + ", " + rest;
    assert s[|t|] == ',';
    assert forall k :: 0 <= k < |t| ==> s[k] == t[k];
    assert CommaIndex(s) == |t|;
    assert s[..|t|] == t;
    assert s[|t| + 2..] == rest;
  }

  /**
   * The body-part tags joined with ", ", in stored order. For a non-empty
   * list the text is non-empty and parses back to exactly that list.
   */
  function JoinTags(parts: seq<BodyPart>): (s: string)
    ensures |parts| > 0 ==> |s| > 0 && ParseTags(s) == Some(parts)
  {
    if |parts| == 0 then ""
    else if |parts| == 1 then
      ParseSingleTag(parts[0]);
      assert parts == [parts[0]];
      Tag(parts[0])
    else
      var rest := JoinTags(parts[1..]);
      ParseTagThenRest(parts[0], rest);
      assert parts == [parts[0]] + parts[1..];
      Tag(parts[0]) + ", " + rest
  }

  /** Joining a tag in front of a non-empty list puts ", " between it and the rest. */
  lemma JoinCons(b: BodyPart, rest: seq<BodyPart>)
    requires |rest| > 0
    ensures JoinTags([b] + rest) == Tag(b) + ", " + JoinTags(rest)
  {
    assert ([b] + rest)[1..] == rest;
  }

  /** A ", " at position i splits s into the text before it and the text after it. */
  lemma SplitAtSeparator(s: string, i: nat)
    requires i + 1 < |s| && s[i] == ',' && s[i + 1] == ' '
    ensures s == s[..i] + ", " + s[i + 2..]
  {
    assert s[i..i + 2] == ", ";
    assert s == s[..i] + s[i..i + 2] + s[i + 2..];
  }

  /** The text ParseTags reads: a tag up to the first comma, then ", " and more tags if there is a comma. */
  lemma ParseTagsPieces(s: string, bs: seq<BodyPart>, i: nat)
    requires ParseTags(s) == Some(bs) && i == CommaIndex(s)
    ensures ParseTag(s[..i]).Some?
    ensures i == |s| ==> bs == [ParseTag(s[..i]).value]
    ensures i < |s| ==> i + 2 <= |s| && s == s[..i] + ", " + s[i + 2..]
    ensures i < |s| ==> ParseTags(s[i + 2..]).Some? && bs == [ParseTag(s[..i]).value] + ParseTags(s[i + 2..]).value
  {
    if i < |s| {
      SplitAtSeparator(s, i);
    }
  }

  /** ParseTags accepts only canonical text: whatever it reads is the join of what it returns. */
  lemma {:induction false} ParseTagsCanonical(s: string, bs: seq<BodyPart>)
    requires ParseTags(s) == Some(bs)
    ensures |bs| > 0 && s == JoinTags(bs)
    decreases |s|
  {
    var i := CommaIndex(s);
    ParseTagsPieces(s, bs, i);
    var b := ParseTag(s[..i]).value;
    ParseTagOnlyTags(s[..i]);
    if i < |s| {
      var rest := ParseTags(s[i + 2..]).value;
      ParseTagsCanonical(s[i + 2..], rest);
      JoinCons(b, rest);
    }
  }

  const NoWorkoutText: string := "No workout"

  /** Every tag is lower case, so nothing that is empty or starts with 'N' is one. */
  lemma UpperCaseIsNotTag(t: string)
    requires |t| == 0 || t[0] == 'N'
    ensures ParseTag(t) == None
  {
  }

  /** "No workout" cannot be mistaken for a list of body parts. */
  lemma NoWorkoutIsNotTags()
    ensures ParseTags(NoWorkoutText) == None
  {
    var s := NoWorkoutText;
    var t := s[..CommaIndex(s)];
    assert |t| > 0 ==> t[0] == 'N';
    UpperCaseIsNotTag(t);
  }

  /**
   * The tooltip of the day with date key `key`: the key and ": ", then
   * "No workout" in the same cases the day is grey, and otherwise the body
   * parts joined with ", " in stored order (which parse back to the
   * record's body parts).
   */
  function Tooltip(m: Lookup, key: string): (t: string)
    ensures |t| > |key| + 2
    ensures t[..|key| + 2] == key + ": "
    ensures !HasWorkout(RecordFor(m, key)) ==> t[|key| + 2..] == NoWorkoutText
    ensures HasWorkout(RecordFor(m, key)) ==> ParseTags(t[|key| + 2..]) == Some(RecordFor(m, key).value.bodyParts)
  {
    var r := RecordFor(m, key);
    var body := if !HasWorkout(r) then NoWorkoutText else JoinTags(r.value.bodyParts);
    var t := key + ": " + body;
    assert t[..|key| + 2] == key + ": ";
    assert t[|key| + 2..] == body;
    t
  }

  // ---- Week columns ----

  function Last(s: seq<Day>): Day
    requires |s| > 0
  {
    s[|s| - 1]
  }

  /** The week columns laid end to end. */
  function Flatten(ws: seq<seq<Day>>): seq<Day> {
    if |ws| == 0 then [] else Flatten(ws[..|ws| - 1]) + ws[|ws| - 1]
  }

  lemma FlattenAppend(ws: seq<seq<Day>>, w: seq<Day>)
    ensures Flatten(ws + [w]) == Flatten(ws) + w
  {
    assert (ws + [w])[..|ws|] == ws;
  }

  /** No Saturday before the last element. */
  predicate NoInnerSaturday(w: seq<Day>) {
    forall k :: 0 <= k < |w| - 1 ==> Weekday(w[k]) != Saturday
  }

  /** The closed columns and the column being filled. */
  datatype WeekState = WeekState(closed: seq<seq<Day>>, current: seq<Day>)

  /**
   * The week split after its first n steps: each step appends a day to the
   * current column and closes the column on a Saturday or on the final day.
   */
  function WeeksAfter(days: seq<Day>, n: nat): WeekState
    requires n <= |days|
  {
    if n == 0 then WeekState([], [])
    else
      var prev := WeeksAfter(days, n - 1);
      var date := days[n - 1];
      var current := prev.current + [date];
      if Weekday(date) == Saturday || n - 1 == |days| - 1 then WeekState(prev.closed + [current], [])
      else WeekState(prev.closed, current)
  }

  /** The week split loses and reorders nothing: closed columns then the current one spell the first n days. */
  lemma {:induction false} WeeksAfterFlatten(days: seq<Day>, n: nat)
    requires n <= |days|
    ensures var s := WeeksAfter(days, n); Flatten(s.closed) + s.current == days[..n]
  {
    if n > 0 {
      WeeksAfterFlatten(days, n - 1);
      var prev := WeeksAfter(days, n - 1);
      var date := days[n - 1];
      assert days[..n] == days[..n - 1] + [date];
      FlattenStep(prev.closed, prev.current, date, days[..n - 1]);
      if Weekday(date) == Saturday || n - 1 == |days| - 1 {
        assert WeeksAfter(days, n) == WeekState(prev.closed + [prev.current + [date]], []);
      } else {
        assert WeeksAfter(days, n) == WeekState(prev.closed, prev.current + [date]);
      }
    }
  }

  /** One step of the split, closing the current column or not, appends the day to what the columns spell. */
  lemma FlattenStep(closed: seq<seq<Day>>, current: seq<Day>, date: Day, prefix: seq<Day>)
    requires Flatten(closed) + current == prefix
    ensures Flatten(closed + [current + [date]]) + [] == prefix + [date]
    ensures Flatten(closed) + (current + [date]) == prefix + [date]
  {
    FlattenAppend(closed, current + [date]);
    assert (Flatten(closed) + current) + [date] == Flatten(closed) + (current + [date]);
  }

  /** Closed columns are non-empty with no Saturday before their end; the column being filled has no Saturday. */
  lemma {:induction false} WeeksAfterColumns(days: seq<Day>, n: nat)
    requires n <= |days|
    ensures forall j :: 0 <= j < |WeeksAfter(days, n).closed| ==>
      |WeeksAfter(days, n).closed[j]| > 0 && NoInnerSaturday(WeeksAfter(days, n).closed[j])
    ensures forall k :: 0 <= k < |WeeksAfter(days, n).current| ==> Weekday(WeeksAfter(days, n).current[k]) != Saturday
  {
    if n > 0 {
      WeeksAfterColumns(days, n - 1);
      var prev := WeeksAfter(days, n - 1);
      var date := days[n - 1];
      var current := prev.current + [date];
      forall k | 0 <= k < |current| - 1
        ensures Weekday(current[k]) != Saturday
      {
        assert current[k] == prev.current[k];
      }
      if Weekday(date) == Saturday || n - 1 == |days| - 1 {
        var closed := prev.closed + [current];
        assert WeeksAfter(days, n).closed == closed;
        assert forall j :: 0 <= j < |prev.closed| ==> closed[j] == prev.closed[j];
      } else {
        assert WeeksAfter(days, n) == WeekState(prev.closed, current);
        assert current[|current| - 1] == date;
      }
    }
  }

  /**
   * Closed columns are non-empty, and every one ends on a Saturday except
   * one closed by the final day; after the final day no column is left open.
   */
  lemma {:induction false} WeeksAfterEnds(days: seq<Day>, n: nat)
    requires n <= |days|
    ensures forall j :: 0 <= j < |WeeksAfter(days, n).closed| ==>
      |WeeksAfter(days, n).closed[j]| > 0
      && (Weekday(Last(WeeksAfter(days, n).closed[j])) == Saturday || (j == |WeeksAfter(days, n).closed| - 1 && n == |days|))
    ensures n == |days| ==> WeeksAfter(days, n).current == []
  {
    if n > 0 {
      WeeksAfterEnds(days, n - 1);
      var prev := WeeksAfter(days, n - 1);
      var date := days[n - 1];
      var current := prev.current + [date];
      if Weekday(date) == Saturday || n - 1 == |days| - 1 {
        var closed := prev.closed + [current];
        assert forall j :: 0 <= j < |prev.closed| ==> closed[j] == prev.closed[j];
        assert Last(closed[|closed| - 1]) == date;
      }
    }
  }

  /** The week columns of a sequence of days. */
  function Weeks(days: seq<Day>): seq<seq<Day>> {
    WeeksAfter(days, |days|).closed
  }

  /**
   * ws splits days into week columns: laid end to end the columns give the
   * days back, every column is non-empty with no Saturday before its end,
   * and every column but the last ends on a Saturday.
   */
  predicate WeekSplit(days: seq<Day>, ws: seq<seq<Day>>) {
    && Flatten(ws) == days
    && (forall j :: 0 <= j < |ws| ==> |ws[j]| > 0 && NoInnerSaturday(ws[j]))
    && (forall j :: 0 <= j < |ws| - 1 ==> Weekday(Last(ws[j])) == Saturday)
  }

  /** The week columns split the days into weeks, and there are columns exactly when there are days. */
  lemma WeeksSpec(days: seq<Day>)
    ensures WeekSplit(days, Weeks(days))
    ensures |Weeks(days)| > 0 <==> |days| > 0
  {
    WeeksAfterFlatten(days, |days|);
    WeeksAfterColumns(days, |days|);
    WeeksAfterEnds(days, |days|);
    var s := WeeksAfter(days, |days|);
    assert days[..|days|] == days;
    assert |s.closed| == 0 ==> Flatten(s.closed) == [];
  }

  /** Splitting a consecutive run keeps both halves consecutive and joined end to start. */
  lemma ConsecutiveSplit(a: seq<Day>, b: seq<Day>)
    requires Consecutive(a + b)
    ensures Consecutive(a) && Consecutive(b)
    ensures |a| > 0 && |b| > 0 ==> b[0] == Last(a) + 1
  {
    assert forall k :: 0 <= k < |a| ==> (a + b)[k] == a[k];
    assert forall k :: 0 <= k < |b| ==> (a + b)[|a| + k] == b[k];
  }

  lemma {:induction false} FlattenEnds(ws: seq<seq<Day>>)
    requires |ws| > 0
    requires forall j :: 0 <= j < |ws| ==> |ws[j]| > 0
    ensures |Flatten(ws)| > 0
    ensures Flatten(ws)[0] == ws[0][0]
    ensures Last(Flatten(ws)) == Last(ws[|ws| - 1])
  {
    var init := ws[..|ws| - 1];
    if |init| > 0 {
      FlattenEnds(init);
    }
  }

  /** The columns of a consecutive run are consecutive runs, each starting the day after the previous ends. */
  lemma {:induction false} FlattenConsecutive(ws: seq<seq<Day>>)
    requires forall j :: 0 <= j < |ws| ==> |ws[j]| > 0
    requires Consecutive(Flatten(ws))
    ensures forall j :: 0 <= j < |ws| ==> Consecutive(ws[j])
    ensures forall j :: 0 <= j < |ws| - 1 ==> ws[j + 1][0] == Last(ws[j]) + 1
  {
    if |ws| > 0 {
      var init := ws[..|ws| - 1];
      var w := ws[|ws| - 1];
      ConsecutiveSplit(Flatten(init), w);
      FlattenConsecutive(init);
      if |init| > 0 {
        FlattenEnds(init);
      }
    }
  }

  /** The weekdays of a consecutive run step by one, cyclically. */
  lemma {:induction false} WeekdayAlong(w: seq<Day>, k: nat)
    requires Consecutive(w) && k < |w|
    ensures Weekday(w[k]) == (Weekday(w[0]) + k) % 7
  {
    if k > 0 {
      WeekdayAlong(w, k - 1);
      WeekdayStep(w[k - 1]);
    }
  }

  /**
   * A consecutive run with no Saturday before its end spans at most the rest
   * of its first week; it fills that rest exactly when it ends on a Saturday.
   */
  lemma RunWithinWeek(w: seq<Day>)
    requires Consecutive(w) && |w| > 0 && NoInnerSaturday(w)
    ensures |w| <= 7 - Weekday(w[0])
    ensures forall k :: 0 <= k < |w| ==> Weekday(w[k]) == Weekday(w[0]) + k
    ensures Weekday(Last(w)) == Saturday <==> |w| == 7 - Weekday(w[0])
  {
    var w0 := Weekday(w[0]);
    if |w| > 7 - w0 {
      WeekdayAlong(w, 6 - w0);
      assert false;
    }
    forall k | 0 <= k < |w|
      ensures Weekday(w[k]) == w0 + k
    {
      WeekdayAlong(w, k);
    }
  }

  /** Leading blank cells above the first column: its first day's weekday. */
  function Padding(ws: seq<seq<Day>>): nat {
    if |ws| == 0 || |ws[0]| == 0 then 0 else Weekday(ws[0][0])
  }

  /** The row of the first cell of column j: below the padding in the first column, the top row otherwise. */
  function RowOffset(ws: seq<seq<Day>>, j: int): nat {
    if j == 0 then Padding(ws) else 0
  }

  /**
   * Column j of a week split of consecutive days is itself a consecutive
   * run with no inner Saturday; it starts on the first day's weekday when
   * it is the first column and on a Sunday otherwise, and ends on a
   * Saturday unless it is the last.
   */
  lemma ColumnRun(days: seq<Day>, ws: seq<seq<Day>>, j: nat)
    requires Consecutive(days) && WeekSplit(days, ws) && j < |ws|
    ensures Consecutive(ws[j]) && |ws[j]| > 0 && NoInnerSaturday(ws[j])
    ensures Weekday(ws[j][0]) == RowOffset(ws, j)
    ensures j < |ws| - 1 ==> Weekday(Last(ws[j])) == Saturday
  {
    FlattenEnds(ws);
    FlattenConsecutive(ws);
    if j > 0 {
      WeekdayStep(Last(ws[j - 1]));
    }
  }

  /**
   * Column j of a week split of consecutive days sits in the calendar rows:
   * every day in the row of its weekday, the column fitting in one week
   * and filling it unless it is the last column.
   */
  lemma ColumnInWeek(days: seq<Day>, ws: seq<seq<Day>>, j: nat)
    requires Consecutive(days) && WeekSplit(days, ws) && j < |ws|
    ensures RowOffset(ws, j) + |ws[j]| <= 7
    ensures j < |ws| - 1 ==> RowOffset(ws, j) + |ws[j]| == 7
    ensures forall k :: 0 <= k < |ws[j]| ==> Weekday(ws[j][k]) == RowOffset(ws, j) + k
  {
    ColumnRun(days, ws, j);
    RunWithinWeek(ws[j]);
  }

  /**
   * A week split of consecutive days is a calendar grid: the padding is the
   * first day's weekday, every day sits in the row of its weekday, no
   * column is longer than a week, interior columns are full weeks, and when
   * there is more than one column the padding completes the first column
   * to a week.
   */
  lemma GridShape(days: seq<Day>, ws: seq<seq<Day>>)
    requires Consecutive(days) && WeekSplit(days, ws) && |days| > 0
    ensures |ws| > 0 && Padding(ws) == Weekday(days[0])
    ensures forall j, k :: 0 <= j < |ws| && 0 <= k < |ws[j]| ==> Weekday(ws[j][k]) == RowOffset(ws, j) + k
    ensures forall j :: 0 <= j < |ws| ==> |ws[j]| <= 7
    ensures forall j :: 0 < j < |ws| - 1 ==> |ws[j]| == 7
    ensures Padding(ws) + |ws[0]| <= 7
    ensures |ws| > 1 ==> Padding(ws) + |ws[0]| == 7
  {
    FlattenEnds(ws);
    forall j | 0 <= j < |ws|
      ensures RowOffset(ws, j) + |ws[j]| <= 7
      ensures j < |ws| - 1 ==> RowOffset(ws, j) + |ws[j]| == 7
      ensures forall k :: 0 <= k < |ws[j]| ==> Weekday(ws[j][k]) == RowOffset(ws, j) + k
    {
      ColumnInWeek(days, ws, j);
    }
  }

  /** Columns all full weeks but the first, which the padding fills, hold 7 cells each in total. */
  lemma {:induction false} FullColumnsLength(ws: seq<seq<Day>>, pad: nat)
    requires |ws| > 0 && pad + |ws[0]| == 7
    requires forall j :: 0 < j < |ws| ==> |ws[j]| == 7
    ensures pad + |Flatten(ws)| == 7 * |ws|
  {
    if |ws| > 1 {
      FullColumnsLength(ws[..|ws| - 1], pad);
    }
  }

  /**
   * Padding plus days fill every column but the last to a full week, and
   * 1..7 cells of the last (counting the padding when the last is the first).
   */
  lemma PaddedLength(days: seq<Day>, ws: seq<seq<Day>>)
    requires Consecutive(days) && WeekSplit(days, ws) && |days| > 0
    ensures |ws| > 0
    ensures Padding(ws) + |days| == 7 * (|ws| - 1) + |ws[|ws| - 1]| + RowOffset(ws, |ws| - 1)
    ensures 1 <= Padding(ws) + |days| - 7 * (|ws| - 1) <= 7
  {
    GridShape(days, ws);
    var init := ws[..|ws| - 1];
    assert |days| == |Flatten(init)| + |ws[|ws| - 1]|;
    if |ws| == 1 {
      assert Flatten(init) == [];
    } else {
      assert forall j :: 0 <= j < |init| ==> init[j] == ws[j];
      FullColumnsLength(init, Padding(ws));
    }
  }

  /** Column j > 0 starts 7 * j - padding days into the run. */
  lemma ColumnStart(days: seq<Day>, ws: seq<seq<Day>>, j: nat)
    requires Consecutive(days) && WeekSplit(days, ws) && 0 < j < |ws|
    ensures |Flatten(ws[..j])| == 7 * j - Padding(ws)
  {
    GridShape(days, ws);
    var before := ws[..j];
    assert forall c :: 0 <= c < |before| ==> before[c] == ws[c];
    FullColumnsLength(before, Padding(ws));
  }

  /** The number of columns is the padded day count rounded up to whole weeks. */
  lemma WeekCount(days: seq<Day>, ws: seq<seq<Day>>)
    requires Consecutive(days) && WeekSplit(days, ws) && |days| > 0
    ensures |ws| == (Padding(ws) + |days| + 6) / 7
  {
    PaddedLength(days, ws);
    CeilWeeks(|ws| - 1, Padding(ws) + |days| - 7 * (|ws| - 1));
  }

  lemma CeilWeeks(q: nat, r: int)
    requires 1 <= r <= 7
    ensures (7 * q + r + 6) / 7 == q + 1
  {
  }

  /** The k-th day of column j sits in the flattened days right after the columns before j. */
  lemma {:induction false} FlattenIndex(ws: seq<seq<Day>>, j: nat, k: nat)
    requires j < |ws| && k < |ws[j]|
    ensures |Flatten(ws[..j])| + k < |Flatten(ws)|
    ensures Flatten(ws)[|Flatten(ws[..j])| + k] == ws[j][k]
  {
    var init := ws[..|ws| - 1];
    if j < |ws| - 1 {
      assert init[..j] == ws[..j];
      FlattenIndex(init, j, k);
    } else {
      assert ws[..j] == init;
    }
  }

  /**
   * The grid position of every day of a consecutive run: with p the padding
   * plus the day's index, the day is drawn in column j = p div 7, in row
   * p mod 7 of the calendar, which is the cell p mod 7 - RowOffset of the
   * column (the first column's cells start below the padding).
   */
  lemma GridPosition(days: seq<Day>, ws: seq<seq<Day>>, i: nat, j: int, k: int)
    requires Consecutive(days) && WeekSplit(days, ws) && i < |days|
    requires j == (Padding(ws) + i) / 7 && k == (Padding(ws) + i) % 7 - RowOffset(ws, j)
    ensures 0 <= j < |ws| && 0 <= k < |ws[j]|
    ensures ws[j][k] == days[i]
  {
    var pad := Padding(ws);
    PaddedLength(days, ws);
    FlattenEnds(ws);
    assert pad == Weekday(days[0]);
    CellIndex(pad, i, |days|, |ws|, |ws[|ws| - 1]|, j, k);
    ColumnInWeek(days, ws, j);
    if j == 0 {
      assert Flatten(ws[..j]) == [];
    } else {
      ColumnStart(days, ws, j);
    }
    FlattenIndex(ws, j, k);
  }

  /** The arithmetic behind GridPosition: where padded index pad + i lands. */
  lemma CellIndex(pad: nat, i: nat, n: nat, cols: nat, lastLen: nat, j: int, k: int)
    requires pad <= 6 && i < n && cols > 0 && 1 <= lastLen
    requires pad + n == 7 * (cols - 1) + lastLen + (if cols == 1 then pad else 0)
    requires pad + n - 7 * (cols - 1) <= 7
    requires j == (pad + i) / 7 && k == (pad + i) % 7 - (if j == 0 then pad else 0)
    ensures 0 <= j < cols && 0 <= k < 7 - (if j == 0 then pad else 0)
    ensures j == cols - 1 ==> k < lastLen
    ensures (if j == 0 then 0 else 7 * j - pad) + k == i
  {
  }

  // ---- Month labels ----

  /**
   * A month label: the zero-based month and its offset, the labelled day's
   * index div 7 as the source computes it. Where the label is drawn is not
   * modelled.
   */
  datatype MonthLabel = MonthLabel(month: int, offset: int)

  /** What the label scan reads of a day: its zero-based month (Date.getMonth) and its day of month (Date.getDate). */
  datatype MonthDay = MonthDay(month: int, day: int)

  /** The month and day of month of every day, in order. */
  function MonthDays(days: seq<Day>): (md: seq<MonthDay>)
    ensures |md| == |days|
  {
    seq(|days|, i requires 0 <= i < |days| => MonthDay(Month0(days[i]), DayOfMonth(days[i])))
  }

  /** The indices of the days that produced a label, and the month last labelled (-1: none). */
  datatype LabelState = LabelState(anchors: seq<nat>, current: int)

  /** Anchor indices strictly increase. */
  predicate Increasing(a: seq<nat>) {
    forall k :: 0 <= k < |a| - 1 ==> a[k] < a[k + 1]
  }

  /** Neighbouring anchors fall in different months. */
  predicate MonthsAlternate(md: seq<MonthDay>, a: seq<nat>) {
    forall k :: 0 <= k < |a| - 1 && a[k] < |md| && a[k + 1] < |md| ==> md[a[k]].month != md[a[k + 1]].month
  }

  /** Appending a later anchor in a new month keeps the anchors increasing and alternating. */
  lemma AppendAnchor(md: seq<MonthDay>, a: seq<nat>, x: nat)
    requires x < |md| && forall k :: 0 <= k < |a| ==> a[k] < x
    requires Increasing(a) && MonthsAlternate(md, a)
    requires |a| > 0 ==> md[a[|a| - 1]].month != md[x].month
    ensures Increasing(a + [x]) && MonthsAlternate(md, a + [x])
  {
    var b := a + [x];
    forall k | 0 <= k < |b| - 1
      ensures b[k] < b[k + 1]
      ensures b[k] < |md| && b[k + 1] < |md| ==> md[b[k]].month != md[b[k + 1]].month
    {
      if k < |a| - 1 {
        assert b[k] == a[k] && b[k + 1] == a[k + 1];
      }
    }
  }

  /**
   * The label scan after its first n days: a day produces a label when its
   * day of month is at most 7 and its month differs from the month last
   * labelled. Anchors increase, lie in the first week of their month, and
   * consecutive anchors are in different months.
   */
  function LabelsAfter(md: seq<MonthDay>, n: nat): (s: LabelState)
    requires n <= |md|
    ensures forall k :: 0 <= k < |s.anchors| ==> s.anchors[k] < n && md[s.anchors[k]].day <= 7
    ensures Increasing(s.anchors) && MonthsAlternate(md, s.anchors)
    ensures s.current == if |s.anchors| == 0 then -1 else md[s.anchors[|s.anchors| - 1]].month
  {
    if n == 0 then LabelState([], -1)
    else
      var s := LabelsAfter(md, n - 1);
      var date := md[n - 1];
      if date.month != s.current && date.day <= 7 then
        AppendAnchor(md, s.anchors, n - 1);
        LabelState(s.anchors + [n - 1], date.month)
      else s
  }

  /** The indices of the days that carry a month label. */
  function LabelAnchors(days: seq<Day>): seq<nat> {
    LabelsAfter(MonthDays(days), |days|).anchors
  }

  /**
   * The labels the scan produces from the months and days of month of a
   * run of days. Each comes from a day in the first week of its month and
   * has offset that day's index div 7; consecutive labels name different
   * months; offsets never decrease.
   */
  function LabelsOf(md: seq<MonthDay>): (labels: seq<MonthLabel>)
    ensures forall k :: 0 <= k < |labels| ==>
      exists i :: 0 <= i < |md| && md[i].day <= 7 && labels[k] == MonthLabel(md[i].month, i / 7)
    ensures forall k :: 0 <= k < |labels| - 1 ==> labels[k].month != labels[k + 1].month
    ensures forall k :: 0 <= k < |labels| - 1 ==> labels[k].offset <= labels[k + 1].offset
    ensures forall k :: 0 <= k < |labels| ==> 0 <= labels[k].offset <= (|md| - 1) / 7
  {
    var anchors := LabelsAfter(md, |md|).anchors;
    var labels := seq(|anchors|, k requires 0 <= k < |anchors| => MonthLabel(md[anchors[k]].month, anchors[k] / 7));
    forall k | 0 <= k < |labels| - 1
      ensures labels[k].month != labels[k + 1].month && labels[k].offset <= labels[k + 1].offset
    {
      assert anchors[k] < anchors[k + 1];
    }
    labels
  }

  /**
   * The month labels of a run of days, in calendar terms: each comes from a
   * day whose day of month is at most 7, names that day's month and has
   * offset its index div 7; consecutive labels name different months;
   * offsets never decrease and stay below the number of weeks.
   */
  function MonthLabels(days: seq<Day>): (labels: seq<MonthLabel>)
    ensures forall k :: 0 <= k < |labels| ==>
      exists i :: 0 <= i < |days| && DayOfMonth(days[i]) <= 7 && labels[k] == MonthLabel(Month0(days[i]), i / 7)
    ensures forall k :: 0 <= k < |labels| - 1 ==> labels[k].month != labels[k + 1].month
    ensures forall k :: 0 <= k < |labels| - 1 ==> labels[k].offset <= labels[k + 1].offset
    ensures forall k :: 0 <= k < |labels| ==> 0 <= labels[k].offset <= (|days| - 1) / 7
  {
    var md := MonthDays(days);
    var labels := LabelsOf(md);
    forall k | 0 <= k < |labels|
      ensures exists i :: 0 <= i < |days| && DayOfMonth(days[i]) <= 7 && labels[k] == MonthLabel(Month0(days[i]), i / 7)
    {
      var i :| 0 <= i < |md| && md[i].day <= 7 && labels[k] == MonthLabel(md[i].month, i / 7);
      assert md[i] == MonthDay(Month0(days[i]), DayOfMonth(days[i]));
    }
    labels
  }

  /** b is the day after a, as far as month and day of month tell. */
  predicate Follows(a: MonthDay, b: MonthDay) {
    if b.day == 1 then b.month == (a.month + 1) % 12 && a.day >= 28
    else b.month == a.month && b.day == a.day + 1
  }

  /** The months and days of month of a run of consecutive days. */
  predicate CalendarRun(md: seq<MonthDay>) {
    && (forall i :: 0 <= i < |md| ==> 0 <= md[i].month <= 11)
    && (forall i :: 0 <= i < |md| - 1 ==> Follows(md[i], md[i + 1]))
  }

  /** Consecutive days read as a calendar run. */
  lemma MonthDaysRun(days: seq<Day>)
    requires Consecutive(days)
    ensures CalendarRun(MonthDays(days))
  {
    var md := MonthDays(days);
    forall i | 0 <= i < |md| - 1
      ensures Follows(md[i], md[i + 1])
    {
      assert days[i + 1] == days[i] + 1;
      MonthStep(days[i]);
    }
  }

  /**
   * Where a label is due over a calendar run: on every 1st of a month, and
   * on the first day when it falls in the first week of its month.
   */
  predicate IsMonthStart(md: seq<MonthDay>, i: int)
    requires 0 <= i < |md|
  {
    md[i].day == 1 || (i == 0 && md[0].day <= 7)
  }

  /** The month starts among the first n days, in order. */
  function MonthStarts(md: seq<MonthDay>, n: nat): seq<nat>
    requires n <= |md|
  {
    if n == 0 then []
    else MonthStarts(md, n - 1) + (if IsMonthStart(md, n - 1) then [n - 1] else [])
  }

  /** MonthStarts holds exactly the month starts below n. */
  lemma {:induction false} MonthStartsSpec(md: seq<MonthDay>, n: nat, i: int)
    requires n <= |md|
    ensures i in MonthStarts(md, n) <==> 0 <= i < n && IsMonthStart(md, i)
  {
    if n > 0 {
      MonthStartsSpec(md, n - 1, i);
    }
  }

  /**
   * What the label scan knows after n days of a calendar run: the anchors
   * are the month starts so far; once something is labelled, the month last
   * labelled is the month of the latest day; while nothing is, the latest
   * day is past the 7th of its month.
   */
  predicate LabelInvariant(md: seq<MonthDay>, n: nat, s: LabelState)
    requires n <= |md|
  {
    && s.anchors == MonthStarts(md, n)
    && (n > 0 && |s.anchors| > 0 ==> s.current == md[n - 1].month)
    && (n > 0 && |s.anchors| == 0 ==> md[n - 1].day > 7)
  }

  /** Given the invariant before day n-1, the scan labels that day exactly when it is a month start. */
  lemma LabelDecision(md: seq<MonthDay>, n: nat)
    requires CalendarRun(md) && 0 < n <= |md|
    requires LabelInvariant(md, n - 1, LabelsAfter(md, n - 1))
    ensures var prev := LabelsAfter(md, n - 1); var date := md[n - 1];
      (date.month != prev.current && date.day <= 7) <==> IsMonthStart(md, n - 1)
    ensures var prev := LabelsAfter(md, n - 1); var date := md[n - 1];
      !IsMonthStart(md, n - 1) && n > 1 ==>
        (|prev.anchors| > 0 ==> prev.current == date.month)
        && (|prev.anchors| == 0 ==> date.day > 7)
  {
    assert 0 <= md[n - 1].month;
    if n > 1 {
      assert Follows(md[n - 2], md[n - 1]);
      assert 0 <= md[n - 2].month <= 11;
    }
  }

  /** One step of the label scan keeps LabelInvariant. */
  lemma LabelStep(md: seq<MonthDay>, n: nat)
    requires CalendarRun(md) && 0 < n <= |md|
    requires LabelInvariant(md, n - 1, LabelsAfter(md, n - 1))
    ensures LabelInvariant(md, n, LabelsAfter(md, n))
  {
    LabelDecision(md, n);
  }

  /** The label scan over a calendar run keeps LabelInvariant. */
  lemma {:induction false} LabelsAfterRun(md: seq<MonthDay>, n: nat)
    requires CalendarRun(md) && n <= |md|
    ensures LabelInvariant(md, n, LabelsAfter(md, n))
  {
    if n > 0 {
      LabelsAfterRun(md, n - 1);
      LabelStep(md, n);
    }
  }

  /** Over consecutive days, the label anchors are exactly the month starts, in order. */
  lemma LabelAnchorsAreMonthStarts(days: seq<Day>)
    requires Consecutive(days)
    ensures LabelAnchors(days) == MonthStarts(MonthDays(days), |days|)
  {
    MonthDaysRun(days);
    LabelsAfterRun(MonthDays(days), |days|);
  }

  /**
   * Over consecutive days, day i carries a label exactly when it is the 1st
   * of its month, or it is the first day and falls in the first week of its month.
   */
  lemma LabelOnDayIff(days: seq<Day>, i: nat)
    requires Consecutive(days) && i < |days|
    ensures i in LabelAnchors(days) <==> DayOfMonth(days[i]) == 1 || (i == 0 && DayOfMonth(days[0]) <= 7)
  {
    var md := MonthDays(days);
    LabelAnchorsAreMonthStarts(days);
    MonthStartsSpec(md, |days|, i);
    assert md[i].day == DayOfMonth(days[i]) && md[0].day == DayOfMonth(days[0]);
  }

  /**
   * One label per anchor, in order: label k names the month of anchor day
   * k and has offset that day's index div 7.
   */
  lemma MonthLabelsAtAnchors(days: seq<Day>)
    ensures |MonthLabels(days)| == |LabelAnchors(days)|
    ensures forall k :: 0 <= k < |LabelAnchors(days)| ==>
      LabelAnchors(days)[k] < |days|
      && MonthLabels(days)[k] == MonthLabel(Month0(days[LabelAnchors(days)[k]]), LabelAnchors(days)[k] / 7)
  {
  }

  // ---- Lookup against a reference ----

  /** Reference lookup: search the history from the back for the first record with date k. */
  function LastWithDate(history: seq<WorkoutHistory>, k: string): Option<WorkoutHistory> {
    if |history| == 0 then None
    else if history[|history| - 1].date == k then Some(history[|history| - 1])
    else LastWithDate(history[..|history| - 1], k)
  }

  /** The overwriting lookup agrees with the backward search for every date key. */
  lemma {:induction false} LookupIsLastWithDate(history: seq<WorkoutHistory>, k: string)
    ensures (if k in BuildLookup(history) then Some(BuildLookup(history)[k]) else None) == LastWithDate(history, k)
  {
    if |history| > 0 {
      var prefix := history[..|history| - 1];
      LookupIsLastWithDate(prefix, k);
      assert BuildLookup(history) == BuildLookup(prefix)[history[|history| - 1].date := history[|history| - 1]];
    }
  }

  /** Two distinct days never show the same record: their keys differ. */
  lemma DistinctDaysDistinctRecords(m: Lookup, d1: Day, d2: Day)
    requires d1 != d2
    requires forall k :: k in m ==> m[k].date == k
    ensures var r1, r2 := RecordFor(m, DateKey(d1)), RecordFor(m, DateKey(d2));
      r1.Some? && r2.Some? ==> r1 != r2
  {
    DateKeyInjective(d1, d2);
  }

  /** In the lookup every record sits under its own date. */
  lemma LookupKeyedByDate(history: seq<WorkoutHistory>)
    ensures forall k :: k in BuildLookup(history) ==> BuildLookup(history)[k].date == k
  {
  }

  // ---- The rendered heatmap ----

  /** One square of the grid: the day, its colour and its tooltip. */
  datatype Cell = Cell(day: Day, color: string, tooltip: string)

  /** The heatmap: blank cells above the first column, the columns, and the month labels. */
  datatype View = View(padding: nat, columns: seq<seq<Cell>>, labels: seq<MonthLabel>)

  /** The cell of a day: colour and tooltip are both looked up under the day's ISO date key. */
  function CellOf(m: Lookup, d: Day): Cell {
    var key := DateKey(d);
    Cell(d, DateColor(m, key), Tooltip(m, key))
  }

  /** One cell per day of every week column, in the same places. */
  function Grid(m: Lookup, ws: seq<seq<Day>>): seq<seq<Cell>> {
    seq(|ws|, j requires 0 <= j < |ws| =>
      seq(|ws[j]|, k requires 0 <= k < |ws[j]| => CellOf(m, ws[j][k])))
  }

  /** The heatmap for today and the stored history. */
  function Render(today: Day, history: seq<WorkoutHistory>): View {
    var days := Window(today);
    var ws := Weeks(days);
    View(Padding(ws), Grid(BuildLookup(history), ws), MonthLabels(days))
  }

  /**
   * A month label's offset ignores the padding: over a week split of
   * consecutive days the labelled day is drawn in the label's column or in
   * the one after it.
   */
  lemma LabelColumn(days: seq<Day>, ws: seq<seq<Day>>, k: nat)
    requires Consecutive(days) && WeekSplit(days, ws) && k < |MonthLabels(days)|
    ensures LabelAnchors(days)[k] < |days|
    ensures MonthLabels(days)[k].offset == LabelAnchors(days)[k] / 7
    ensures (Padding(ws) + LabelAnchors(days)[k]) / 7 == MonthLabels(days)[k].offset
      || (Padding(ws) + LabelAnchors(days)[k]) / 7 == MonthLabels(days)[k].offset + 1
  {
    FlattenEnds(ws);
  }

  /**
   * The week columns of the year: the padding is the weekday of the oldest
   * day, there are always 53 columns, the padding completes the first
   * column to a week, and interior columns are full weeks.
   */
  lemma WindowColumns(today: Day, ws: seq<seq<Day>>)
    requires ws == Weeks(Window(today))
    ensures Padding(ws) == Weekday(today - 364)
    ensures |ws| == 53
    ensures Padding(ws) + |ws[0]| == 7
    ensures forall j :: 0 < j < |ws| - 1 ==> |ws[j]| == 7
  {
    var days := Window(today);
    WeeksSpec(days);
    GridShape(days, ws);
    WeekCount(days, ws);
  }

  /**
   * The shape of the rendered year: 53 columns, the first completed to a
   * week by the padding (the weekday of the oldest day), interior columns
   * full weeks.
   */
  lemma RenderShape(today: Day, history: seq<WorkoutHistory>, v: View)
    requires v == Render(today, history)
    ensures v.padding == Weekday(today - 364)
    ensures |v.columns| == 53
    ensures v.padding + |v.columns[0]| == 7
    ensures forall j :: 0 < j < |v.columns| - 1 ==> |v.columns[j]| == 7
  {
    var ws := Weeks(Window(today));
    WindowColumns(today, ws);
    forall j | 0 < j < |v.columns| - 1
      ensures |v.columns[j]| == 7
    {
      assert |v.columns[j]| == |ws[j]|;
    }
  }

  /**
   * Window day i (counting from the oldest) is drawn in column
   * j = (padding + i) div 7, at cell k = (padding + i) mod 7 of that column,
   * less the padding in the first column.
   */
  lemma RenderPosition(today: Day, history: seq<WorkoutHistory>, v: View, i: nat, j: int, k: int)
    requires v == Render(today, history) && i < WindowLength
    requires j == (v.padding + i) / 7 && k == (v.padding + i) % 7 - (if j == 0 then v.padding else 0)
    ensures 0 <= j < |v.columns| && 0 <= k < |v.columns[j]|
    ensures v.columns[j][k].day == today - 364 + i
  {
    var days := Window(today);
    var ws := Weeks(days);
    WeeksSpec(days);
    GridPosition(days, ws, i, j, k);
    assert v.columns[j][k] == CellOf(BuildLookup(history), ws[j][k]);
  }

  /**
   * What a cell shows for the history: the colour and the tooltip of the last
   * record carrying the cell's date key; grey with "No workout" when there is
   * none or it lists no body part, otherwise the colour of its first body
   * part and a tooltip listing all its body parts in order.
   */
  predicate ShowsLastRecord(history: seq<WorkoutHistory>, c: Cell) {
    var key := DateKey(c.day);
    var r := LastWithDate(history, key);
    && |c.tooltip| >= |key| + 2
    && (c.color == NoWorkoutColor <==> !HasWorkout(r))
    && (HasWorkout(r) ==> c.color == Color(r.value.bodyParts[0]))
    && c.tooltip[..|key| + 2] == key + ": "
    && (!HasWorkout(r) ==> c.tooltip[|key| + 2..] == NoWorkoutText)
    && (HasWorkout(r) ==> ParseTags(c.tooltip[|key| + 2..]) == Some(r.value.bodyParts))
  }

  /** The cell drawn at column j, row k shows a window day and its last record. */
  lemma CellShown(today: Day, history: seq<WorkoutHistory>, v: View, j: nat, k: nat)
    requires v == Render(today, history) && j < |v.columns| && k < |v.columns[j]|
    ensures today - 364 <= v.columns[j][k].day <= today
    ensures ShowsLastRecord(history, v.columns[j][k])
  {
    var days := Window(today);
    var ws := Weeks(days);
    var m := BuildLookup(history);
    var d := ws[j][k];
    assert v.columns[j][k] == CellOf(m, d);
    WeeksSpec(days);
    FlattenIndex(ws, j, k);
    assert d in days;
    var key := DateKey(d);
    LookupIsLastWithDate(history, key);
    var r := RecordFor(m, key);
    if HasWorkout(r) {
      assert BodyPartOfColor(Color(r.value.bodyParts[0])) == Some(r.value.bodyParts[0]);
    }
  }

  /** Every cell of the rendered year shows a window day, described by the last record with its key. */
  lemma RenderCell(today: Day, history: seq<WorkoutHistory>, v: View)
    requires v == Render(today, history)
    ensures forall j, k :: 0 <= j < |v.columns| && 0 <= k < |v.columns[j]| ==>
      today - 364 <= v.columns[j][k].day <= today && ShowsLastRecord(history, v.columns[j][k])
  {
    forall j, k | 0 <= j < |v.columns| && 0 <= k < |v.columns[j]|
      ensures today - 364 <= v.columns[j][k].day <= today && ShowsLastRecord(history, v.columns[j][k])
    {
      CellShown(today, history, v, j, k);
    }
  }

  /** With no history every cell is grey and says "No workout". */
  lemma RenderEmptyHistory(today: Day, v: View)
    requires v == Render(today, [])
    ensures forall j, k :: 0 <= j < |v.columns| && 0 <= k < |v.columns[j]| ==>
      v.columns[j][k].color == NoWorkoutColor
      && v.columns[j][k].tooltip == DateKey(v.columns[j][k].day) + ": " + NoWorkoutText
  {
    forall j, k | 0 <= j < |v.columns| && 0 <= k < |v.columns[j]|
      ensures v.columns[j][k].color == NoWorkoutColor
      ensures v.columns[j][k].tooltip == DateKey(v.columns[j][k].day) + ": " + NoWorkoutText
    {
      CellShown(today, [], v, j, k);
      var c := v.columns[j][k];
      var key := DateKey(c.day);
      assert c.tooltip == c.tooltip[..|key| + 2] + c.tooltip[|key| + 2..];
    }
  }

  /** The labels of the year: months alternate and every offset names one of the 53 columns. */
  lemma RenderLabels(today: Day, history: seq<WorkoutHistory>, v: View)
    requires v == Render(today, history)
    ensures forall k :: 0 <= k < |v.labels| ==> 0 <= v.labels[k].offset <= 52
    ensures forall k :: 0 <= k < |v.labels| - 1 ==> v.labels[k].month != v.labels[k + 1].month
  {
  }

  /**
   * Over consecutive days, day i is labelled exactly when it is the 1st of
   * its month, or it is the first day and falls on the 1st to 7th.
   */
  lemma LabelledDays(days: seq<Day>)
    requires Consecutive(days)
    ensures forall i :: 0 <= i < |days| ==>
      (i in LabelAnchors(days) <==> DayOfMonth(days[i]) == 1 || (i == 0 && DayOfMonth(days[0]) <= 7))
  {
    forall i | 0 <= i < |days|
      ensures i in LabelAnchors(days) <==> DayOfMonth(days[i]) == 1 || (i == 0 && DayOfMonth(days[0]) <= 7)
    {
      LabelOnDayIff(days, i);
    }
  }

  /**
   * The labels of the year, one per labelled day in day order. Day i of the
   * window (which is today - 364 + i) is labelled exactly when it is the
   * 1st of its month, or it is the oldest day and falls on the 1st to 7th;
   * each label names that day's month and has offset i div 7.
   */
  lemma RenderLabelDays(today: Day, history: seq<WorkoutHistory>, v: View)
    requires v == Render(today, history)
    ensures var days := Window(today); var a := LabelAnchors(days);
      && |v.labels| == |a| && Increasing(a)
      && (forall k :: 0 <= k < |a| ==>
            a[k] < |days| && v.labels[k] == MonthLabel(Month0(days[a[k]]), a[k] / 7))
      && (forall i :: 0 <= i < |days| ==>
            (i in a <==> DayOfMonth(days[i]) == 1 || (i == 0 && DayOfMonth(days[0]) <= 7)))
  {
    var days := Window(today);
    assert v.labels == MonthLabels(days);
    MonthLabelsAtAnchors(days);
    LabelledDays(days);
  }
}
