/** The calendar grids: which days a screen shows and which events each day
    cell lists. Widgets, fonts and sizes are not modelled. */
module Layout {
  import opened Wrappers
  import opened Dates
  import opened OffsetDateTimes
  import opened StableSort
  import opened Cal

  lemma RemainderOf(x: int, q: int, t: int)
    requires 0 <= t < 7 && x == 7 * q + t
    ensures x % 7 == t
  {
  }

  /** A weekday is read off the day number modulo seven. */
  lemma WeekdayFromRemainder(d: Date, w: Weekday)
    requires DayNumber(d) % 7 == w.Index()
    ensures WeekdayOf(d) == w
  {
  }

  /** `end_of_month`: the same year and month, on its last day. */
  function EndOfMonth(d: Date): (r: Date)
    ensures r.year == d.year && r.month == d.month && r.day == DaysInMonth(d.year, d.month)
    ensures DateLe(d, r)
    ensures NextDay(r).month != d.month
  {
    var r: Date := Ymd(d.year, d.month, DaysInMonth(d.year, d.month));
    DateLeIsFieldOrder(d, r);
    r
  }

  /** `replace_day(1)`, which cannot fail. */
  function FirstOfMonth(d: Date): (r: Date)
    ensures r.year == d.year && r.month == d.month && r.day == 1
    ensures DateLe(r, d)
  {
    var r: Date := Ymd(d.year, d.month, 1);
    DateLeIsFieldOrder(r, d);
    r
  }

  /** `Date::prev_occurrence`: the latest day strictly before `d` that falls on `w`. */
  function PrevOccurrence(d: Date, w: Weekday): (r: Date)
    ensures WeekdayOf(r) == w
    ensures 1 <= DayNumber(d) - DayNumber(r) <= 7
  {
    var q, t := DayNumber(d) % 7, w.Index();
    var k := if q > t then q - t else q - t + 7;
    var r := SubDays(d, k);
    RemainderOf(DayNumber(r), DayNumber(d) / 7 - (if q > t then 0 else 1), t);
    WeekdayFromRemainder(r, w);
    r
  }

  /** `Date::next_occurrence`: the earliest day strictly after `d` that falls on `w`. */
  function NextOccurrence(d: Date, w: Weekday): (r: Date)
    ensures WeekdayOf(r) == w
    ensures 1 <= DayNumber(r) - DayNumber(d) <= 7
  {
    var q, t := DayNumber(d) % 7, w.Index();
    var k := if t > q then t - q else t - q + 7;
    var r := AddDays(d, k);
    RemainderOf(DayNumber(r), DayNumber(d) / 7 + (if t > q then 0 else 1), t);
    WeekdayFromRemainder(r, w);
    r
  }

  /** Two days a week apart fall on the same weekday. */
  lemma WeekApart(a: Date, b: Date)
    ensures DayNumber(b) == DayNumber(a) + 7 ==> WeekdayOf(a) == WeekdayOf(b)
  {
    if DayNumber(b) == DayNumber(a) + 7 {
      RemainderOf(DayNumber(b), DayNumber(a) / 7 + 1, DayNumber(a) % 7);
    }
  }

  /** `week_start`: the Monday of the week of `d`. */
  function WeekStart(d: Date): (r: Date)
    ensures WeekdayOf(r) == Monday
    ensures DateLe(r, d) && DayNumber(d) - DayNumber(r) <= 6
    ensures WeekdayOf(d) == Monday ==> r == d
  {
    if WeekdayOf(d) == Monday then d
    else
      var r := PrevOccurrence(d, Monday);
      WeekApart(r, d);
      r
  }

  /** `week_end`: the Sunday of the week of `d`. */
  function WeekEnd(d: Date): (r: Date)
    ensures WeekdayOf(r) == Sunday
    ensures DateLe(d, r) && DayNumber(r) - DayNumber(d) <= 6
    ensures WeekdayOf(d) == Sunday ==> r == d
  {
    if WeekdayOf(d) == Sunday then d
    else
      var r := NextOccurrence(d, Sunday);
      WeekApart(d, r);
      r
  }

  /** `successors(Some(start), next_day).take_while(|x| x <= &end).collect()`. */
  method CollectDays(start: Date, end: Date) returns (days: seq<Date>)
    ensures days == DaysThrough(start, end)
  {
    days := [];
    var x := start;
    while DateLe(x, end)
      invariant days + DaysThrough(x, end) == DaysThrough(start, end)
      decreases DayNumber(end) - DayNumber(x)
    {
      assert DaysThrough(x, end) == [x] + DaysThrough(NextDay(x), end);
      days := days + [x];
      x := NextDay(x);
    }
    assert DaysThrough(x, end) == [];
  }

  /** The month grid's run of days, whole weeks from the Monday on or before the
      1st to the Sunday on or after the month's last day. */
  method MonthDays(today: Date) returns (days: seq<Date>)
    ensures days == DaysThrough(WeekStart(FirstOfMonth(today)), WeekEnd(EndOfMonth(today)))
    ensures |days| > 0 && |days| % 7 == 0
    ensures forall k :: 1 <= k <= DaysInMonth(today.year, today.month) ==> Ymd(today.year, today.month, k) in days
  {
    var start := WeekStart(FirstOfMonth(today));
    var end := WeekEnd(EndOfMonth(today));
    days := CollectDays(start, end);
    MonthRunIsWholeWeeks(start, end);
    MonthRunCoversMonth(today);
  }

  lemma MonthRunCoversMonth(today: Date)
    ensures forall k :: 1 <= k <= DaysInMonth(today.year, today.month) ==>
      Ymd(today.year, today.month, k) in DaysThrough(WeekStart(FirstOfMonth(today)), WeekEnd(EndOfMonth(today)))
  {
    forall k | 1 <= k <= DaysInMonth(today.year, today.month)
      ensures Ymd(today.year, today.month, k) in DaysThrough(WeekStart(FirstOfMonth(today)), WeekEnd(EndOfMonth(today)))
    {
      MonthDayInRun(today, Ymd(today.year, today.month, k));
    }
  }

  lemma MonthDayInRun(today: Date, d: Date)
    requires d.year == today.year && d.month == today.month
    ensures d in DaysThrough(WeekStart(FirstOfMonth(today)), WeekEnd(EndOfMonth(today)))
  {
    DateLeIsFieldOrder(FirstOfMonth(today), d);
    DateLeIsFieldOrder(d, EndOfMonth(today));
    DaysThroughContains(WeekStart(FirstOfMonth(today)), WeekEnd(EndOfMonth(today)), d);
  }

  /** A run from a Monday to a later Sunday is a whole number of weeks. */
  lemma MonthRunIsWholeWeeks(start: Date, end: Date)
    requires WeekdayOf(start) == Monday && WeekdayOf(end) == Sunday && DateLe(start, end)
    ensures |DaysThrough(start, end)| > 0 && |DaysThrough(start, end)| % 7 == 0
  {
    WeekdayRemainder(start, Monday);
    WeekdayRemainder(end, Sunday);
    WholeWeeks(DayNumber(start), DayNumber(end));
  }

  lemma WeekdayRemainder(d: Date, w: Weekday)
    requires WeekdayOf(d) == w
    ensures DayNumber(d) % 7 == w.Index()
  {
  }

  lemma WholeWeeks(a: int, b: int)
    requires a % 7 == 0 && b % 7 == 6 && a <= b
    ensures b - a + 1 > 0 && (b - a + 1) % 7 == 0
  {
    RemainderOf(b - a + 1, b / 7 - a / 7 + 1, 0);
  }

  /** `successors(Some(start), next_day).take(n)`: up to `n` days from `start`. */
  function Successors(start: Date, n: nat): (r: seq<Date>)
    ensures 0 < |r| <= n || (n == 0 && r == [])
    ensures DayNumber(start) + n <= MaxDayNumber + 1 ==> |r| == n
    ensures forall i :: 0 <= i < |r| ==> r[i] == AddDays(start, i)
    decreases n
  {
    if n == 0 then []
    else
      match NextDayChecked(start)
      case None => [start]
      case Some(next) =>
        var rest := Successors(next, n - 1);
        SuccessorsStep(start, next, rest);
        [start] + rest
  }

  lemma SuccessorsStep(start: Date, next: Date, rest: seq<Date>)
    requires DayNumber(next) == DayNumber(start) + 1
    requires forall i :: 0 <= i < |rest| ==> rest[i] == AddDays(next, i)
    ensures forall i :: 0 <= i < |rest| + 1 ==> ([start] + rest)[i] == AddDays(start, i)
  {
    DayNumberInjective(next, NextDay(start));
    forall i | 0 <= i < |rest| + 1 ensures ([start] + rest)[i] == AddDays(start, i) {
      if i > 0 {
        SuccessorAt(start, next, rest, i);
      }
    }
  }

  lemma SuccessorAt(start: Date, next: Date, rest: seq<Date>, i: nat)
    requires next == NextDay(start) && 0 < i <= |rest| && rest[i - 1] == AddDays(next, i - 1)
    ensures ([start] + rest)[i] == AddDays(start, i)
  {
    assert ([start] + rest)[i] == rest[i - 1];
  }

  function Clip(i: int, n: nat): nat {
    if i < 0 then 0 else if i > n then n else i
  }

  /** A row that matches `items` element by element from `from` is that slice. */
  lemma RowIsSlice<T>(items: seq<T>, from: nat, row: seq<T>)
    requires from + |row| <= |items| && forall k :: 0 <= k < |row| ==> row[k] == items[from + k]
    ensures row == items[from..from + |row|]
  {
  }

  /** One row of twelve-day mode as written: `items.zip(columns)` over a shared
      item iterator, in the order of `Zip::next`. `next` takes an item before it
      asks for a column, so when the row's columns are used up it has taken, and
      drops, one item more. A standard library whose `Zip::fold` is specialised
      for two `TrustedLen` sides takes exactly `min` of the two lengths in paired
      steps instead, and drops nothing; this method models the `next` order. */
  method ZipRowAsWritten<T>(items: seq<T>, from: nat, columns: nat) returns (row: seq<T>, next: nat)
    requires from <= |items|
    ensures row == items[from..Clip(from + columns, |items|)]
    ensures next == Clip(from + columns + 1, |items|)
  {
    row := [];
    next := from;
    var left := columns;
    while next < |items|
      invariant from <= next <= |items| && next - from <= columns
      invariant left == columns - (next - from) && |row| == next - from
      invariant forall k :: 0 <= k < |row| ==> row[k] == items[from + k]
    {
      var item := items[next];
      if left == 0 {
        assert Clip(from + columns, |items|) == next && Clip(from + columns + 1, |items|) == next + 1;
        RowIsSlice(items, from, row);
        next := next + 1;
        return;
      }
      row := row + [item];
      next := next + 1;
      left := left - 1;
    }
    RowIsSlice(items, from, row);
  }

  /** One row as intended: at most `columns` items, none taken beyond them. */
  method ZipRow<T>(items: seq<T>, from: nat, columns: nat) returns (row: seq<T>, next: nat)
    requires from <= |items|
    ensures row == items[from..Clip(from + columns, |items|)]
    ensures next == Clip(from + columns, |items|)
  {
    row := [];
    next := from;
    var left := columns;
    while left > 0 && next < |items|
      invariant from <= next <= |items| && next - from <= columns
      invariant left == columns - (next - from) && |row| == next - from
      invariant forall k :: 0 <= k < |row| ==> row[k] == items[from + k]
    {
      row := row + [items[next]];
      next := next + 1;
      left := left - 1;
    }
    RowIsSlice(items, from, row);
  }

  /** The four rows of three, filled from one shared iterator as written. */
  method RowsAsWritten<T>(items: seq<T>) returns (rows: seq<seq<T>>)
    ensures |rows| == 4
    ensures forall r :: 0 <= r < 4 ==> rows[r] == items[Clip(4 * r, |items|)..Clip(4 * r + 3, |items|)]
  {
    var next := 0;
    rows := [];
    for r := 0 to 4
      invariant |rows| == r && next == Clip(4 * r, |items|)
      invariant forall q :: 0 <= q < r ==> rows[q] == items[Clip(4 * q, |items|)..Clip(4 * q + 3, |items|)]
    {
      var row;
      row, next := ZipRowAsWritten(items, next, 3);
      rows := rows + [row];
    }
  }

  /** The four rows of three, as intended. */
  method Rows<T>(items: seq<T>) returns (rows: seq<seq<T>>)
    ensures |rows| == 4
    ensures forall r :: 0 <= r < 4 ==> rows[r] == items[Clip(3 * r, |items|)..Clip(3 * r + 3, |items|)]
  {
    var next := 0;
    rows := [];
    for r := 0 to 4
      invariant |rows| == r && next == Clip(3 * r, |items|)
      invariant forall q :: 0 <= q < r ==> rows[q] == items[Clip(3 * q, |items|)..Clip(3 * q + 3, |items|)]
    {
      var row;
      row, next := ZipRow(items, next, 3);
      rows := rows + [row];
    }
  }

  /** Twelve-day mode as written: the days from today, shared by the rows. */
  method TwelveDayRowsAsWritten(today: Date) returns (rows: seq<seq<Date>>)
    ensures |rows| == 4
    ensures var days := Successors(today, 12);
      forall r :: 0 <= r < 4 ==> rows[r] == days[Clip(4 * r, |days|)..Clip(4 * r + 3, |days|)]
  {
    rows := RowsAsWritten(Successors(today, 12));
  }

  /** Twelve items laid out as written: rows 0-2 hold items 4r to 4r+2 and row 3 is empty. */
  lemma RowsAsWrittenPositions<T>(items: seq<T>, rows: seq<seq<T>>)
    requires |items| == 12 && |rows| == 4
    requires forall r :: 0 <= r < 4 ==> rows[r] == items[Clip(4 * r, |items|)..Clip(4 * r + 3, |items|)]
    ensures rows[3] == []
    ensures forall r :: 0 <= r < 3 ==> |rows[r]| == 3
    ensures forall r, c :: 0 <= r < 3 && 0 <= c < 3 ==> rows[r][c] == items[4 * r + c]
  {
    assert rows[3] == items[12..12];
    forall r, c | 0 <= r < 3 && 0 <= c < 3 ensures |rows[r]| == 3 && rows[r][c] == items[4 * r + c] {
      assert rows[r] == items[4 * r..4 * r + 3];
    }
  }

  /** Laid out as written, twelve items numbered consecutively by `key` never show
      the items numbered three, seven and eleven after the first. */
  lemma RowsAsWrittenSkip<T>(items: seq<T>, rows: seq<seq<T>>, key: T -> int)
    requires |items| == 12 && |rows| == 4
    requires forall r :: 0 <= r < 4 ==> rows[r] == items[Clip(4 * r, |items|)..Clip(4 * r + 3, |items|)]
    requires forall k :: 0 <= k < 12 ==> key(items[k]) == key(items[0]) + k
    ensures forall r, c :: 0 <= r < 4 && 0 <= c < |rows[r]| ==>
      key(rows[r][c]) != key(items[0]) + 3 && key(rows[r][c]) != key(items[0]) + 7 &&
      key(rows[r][c]) != key(items[0]) + 11
  {
    RowsAsWrittenPositions(items, rows);
  }

  /** With twelve days available, the day three days after today is never shown
      (nor are the seventh and eleventh), and the last row stays empty. */
  lemma TwelveDaySkipsDays(today: Date, rows: seq<seq<Date>>)
    requires DayNumber(today) + 12 <= MaxDayNumber + 1
    requires |rows| == 4
    requires var days := Successors(today, 12);
      forall r :: 0 <= r < 4 ==> rows[r] == days[Clip(4 * r, |days|)..Clip(4 * r + 3, |days|)]
    ensures rows[3] == [] && forall r :: 0 <= r < 3 ==> |rows[r]| == 3
    ensures forall r, c :: 0 <= r < 3 && 0 <= c < 3 ==> rows[r][c] == AddDays(today, 4 * r + c)
    ensures forall r, c :: 0 <= r < 4 && 0 <= c < |rows[r]| ==>
      DayNumber(rows[r][c]) != DayNumber(today) + 3 && DayNumber(rows[r][c]) != DayNumber(today) + 7 &&
      DayNumber(rows[r][c]) != DayNumber(today) + 11
  {
    var days := Successors(today, 12);
    RowsAsWrittenPositions(days, rows);
    RowsAsWrittenSkip(days, rows, DayNumber);
  }

  /** Twelve-day mode as intended. */
  method TwelveDayRows(today: Date) returns (rows: seq<seq<Date>>)
    ensures |rows| == 4
    ensures var days := Successors(today, 12);
      forall r :: 0 <= r < 4 ==> rows[r] == days[Clip(3 * r, |days|)..Clip(3 * r + 3, |days|)]
  {
    rows := Rows(Successors(today, 12));
  }

  /** Twelve items laid out as intended: row `r`, column `c` holds item `3r + c`. */
  lemma RowsPositions<T>(items: seq<T>, rows: seq<seq<T>>)
    requires |items| == 12 && |rows| == 4
    requires forall r :: 0 <= r < 4 ==> rows[r] == items[Clip(3 * r, |items|)..Clip(3 * r + 3, |items|)]
    ensures forall r :: 0 <= r < 4 ==> |rows[r]| == 3
    ensures forall r, c :: 0 <= r < 4 && 0 <= c < 3 ==> rows[r][c] == items[3 * r + c]
  {
    forall r, c | 0 <= r < 4 && 0 <= c < 3 ensures |rows[r]| == 3 && rows[r][c] == items[3 * r + c] {
      assert rows[r] == items[3 * r..3 * r + 3];
    }
  }

  /** With twelve days available, row `r`, column `c` shows the day `3r + c` days after today. */
  lemma TwelveDayGrid(today: Date, rows: seq<seq<Date>>)
    requires DayNumber(today) + 12 <= MaxDayNumber + 1
    requires |rows| == 4
    requires var days := Successors(today, 12);
      forall r :: 0 <= r < 4 ==> rows[r] == days[Clip(3 * r, |days|)..Clip(3 * r + 3, |days|)]
    ensures forall r :: 0 <= r < 4 ==> |rows[r]| == 3
    ensures forall r, c :: 0 <= r < 4 && 0 <= c < 3 ==> rows[r][c] == AddDays(today, 3 * r + c)
  {
    var days := Successors(today, 12);
    RowsPositions(days, rows);
  }

  /** `remove_earlier_events`: the events from the first one that starts on or
      after `b` or covers `b`; none when there is no such event. */
  function RemoveEarlierEvents(evs: seq<Event>, b: Date): (r: seq<Event>)
    ensures |r| <= |evs| && r == evs[|evs| - |r|..]
    ensures r != [] ==> DateLe(b, r[0].start.date) || Covers(r[0], b)
    ensures forall i :: 0 <= i < |evs| - |r| ==> !DateLe(b, evs[i].start.date) && !Covers(evs[i], b)
    ensures forall i :: 0 <= i < |evs| - |r| ==> DateLt(evs[i].end.date, b)
  {
    match FirstIndex(evs, (e: Event) => DateLe(b, e.start.date) || Covers(e, b))
    case Some(i) => evs[i..]
    case None => []
  }

  /** The events among `evs` that cover `d`, in order. */
  function CoveringEvents(evs: seq<Event>, d: Date): (r: seq<Event>)
    ensures forall e :: e in r <==> e in evs && Covers(e, d)
  {
    if evs == [] then []
    else (if Covers(evs[0], d) then [evs[0]] else []) + CoveringEvents(evs[1..], d)
  }

  /** `take_while(|x| x.start.date() <= day)`. */
  function StartedBy(evs: seq<Event>, day: Date): (r: seq<Event>)
    ensures |r| <= |evs| && r == evs[..|r|]
    ensures |r| < |evs| ==> !DateLe(evs[|r|].start.date, day)
  {
    if evs == [] || !DateLe(evs[0].start.date, day) then []
    else [evs[0]] + StartedBy(evs[1..], day)
  }

  /** Every event the take-while keeps starts by `day`. */
  lemma {:induction false} StartedByStart(evs: seq<Event>, day: Date)
    ensures forall e :: e in StartedBy(evs, day) ==> DateLe(e.start.date, day)
    decreases |evs|
  {
    if evs != [] && DateLe(evs[0].start.date, day) {
      StartedByStart(evs[1..], day);
    }
  }

  /** The events a day cell lists: those taken while they start by `day`, then
      kept when they cover it. */
  function DayCell(evs: seq<Event>, day: Date): seq<Event> {
    CoveringEvents(StartedBy(evs, day), day)
  }

  lemma {:induction false} CoveringAppend(a: seq<Event>, b: seq<Event>, d: Date)
    ensures CoveringEvents(a + b, d) == CoveringEvents(a, d) + CoveringEvents(b, d)
    decreases |a|
  {
    if a != [] {
      assert (a + b)[0] == a[0];
      assert (a + b)[1..] == a[1..] + b;
      CoveringAppend(a[1..], b, d);
    } else {
      assert a + b == b;
    }
  }

  lemma {:induction false} CoveringNone(s: seq<Event>, d: Date)
    requires forall i :: 0 <= i < |s| ==> !Covers(s[i], d)
    ensures CoveringEvents(s, d) == []
    decreases |s|
  {
    if s != [] {
      CoveringNone(s[1..], d);
    }
  }

  /** Past an event that starts after `day`, no event in start order covers `day`. */
  lemma LaterNotCovering(evs: seq<Event>, n: nat, day: Date)
    requires StartDatesInOrder(evs) && n < |evs| && DateLt(day, evs[n].start.date)
    ensures forall j :: n <= j < |evs| ==> !Covers(evs[j], day)
  {
    forall j | n < j < |evs| ensures DateLt(day, evs[j].start.date) {
      assert DateLe(evs[n].start.date, evs[j].start.date);
    }
  }

  /** Dropping a tail of events none of which covers `d` keeps the covering events. */
  lemma CoveringPrefix(evs: seq<Event>, k: nat, d: Date)
    requires k <= |evs|
    requires forall j :: k <= j < |evs| ==> !Covers(evs[j], d)
    ensures CoveringEvents(evs[..k], d) == CoveringEvents(evs, d)
  {
    var tail := evs[k..];
    assert evs == evs[..k] + tail;
    CoveringAppend(evs[..k], tail, d);
    forall j | 0 <= j < |tail| ensures !Covers(tail[j], d) {
      assert tail[j] == evs[k + j];
    }
    CoveringNone(tail, d);
  }

  /** Dropping a head of events none of which covers `d` keeps the covering events. */
  lemma CoveringSuffix(evs: seq<Event>, k: nat, d: Date)
    requires k <= |evs|
    requires forall j :: 0 <= j < k ==> !Covers(evs[j], d)
    ensures CoveringEvents(evs[k..], d) == CoveringEvents(evs, d)
  {
    var head := evs[..k];
    assert evs == head + evs[k..];
    CoveringAppend(head, evs[k..], d);
    CoveringNone(head, d);
  }

  /** Over events whose start dates are in order, the take-while loses nothing:
      a day cell lists exactly the events that cover the day. */
  lemma DayCellIsCovering(evs: seq<Event>, day: Date)
    requires StartDatesInOrder(evs)
    ensures DayCell(evs, day) == CoveringEvents(evs, day)
  {
    var t := StartedBy(evs, day);
    if |t| < |evs| {
      LaterNotCovering(evs, |t|, day);
    }
    CoveringPrefix(evs, |t|, day);
  }

  /** `remove_earlier_events` only drops events that have ended before `b`, so the
      events covering `b` or any later day are all still there. */
  lemma RemoveKeepsCovering(evs: seq<Event>, b: Date, d: Date)
    requires DateLe(b, d)
    ensures CoveringEvents(RemoveEarlierEvents(evs, b), d) == CoveringEvents(evs, d)
  {
    var r := RemoveEarlierEvents(evs, b);
    CoveringSuffix(evs, |evs| - |r|, d);
  }

  predicate DaysInOrder(days: seq<Date>) {
    forall i, j :: 0 <= i < j < |days| ==> DateLe(days[i], days[j])
  }

  lemma DaysTailInOrder(days: seq<Date>)
    requires DaysInOrder(days) && days != []
    ensures DaysInOrder(days[1..])
  {
    forall i, j | 0 <= i < j < |days| - 1 ensures DateLe(days[1..][i], days[1..][j]) {
      assert days[1..][i] == days[i + 1] && days[1..][j] == days[j + 1];
    }
  }

  lemma SuffixInOrder(evs: seq<Event>, k: nat)
    requires StartDatesInOrder(evs) && k <= |evs|
    ensures StartDatesInOrder(evs[k..])
  {
    forall i, j | 0 <= i < j < |evs| - k ensures DateLe(evs[k..][i].start.date, evs[k..][j].start.date) {
      assert evs[k..][i] == evs[k + i] && evs[k..][j] == evs[k + j];
    }
  }

  /** The cells of the render loop over `days`: at each day the event slice is
      shrunk with `remove_earlier_events`, then the day's cell is taken from it. */
  function Cells(evs: seq<Event>, days: seq<Date>): (r: seq<seq<Event>>)
    ensures |r| == |days|
  {
    if days == [] then []
    else
      var rest := RemoveEarlierEvents(evs, days[0]);
      [DayCell(rest, days[0])] + Cells(rest, days[1..])
  }

  /** Over events whose start dates are in order and days in order, each cell
      lists exactly the events that cover its day: shrinking the slice and
      stopping the take-while early lose nothing. */
  lemma {:induction false} CellsAreCovering(evs: seq<Event>, days: seq<Date>)
    requires StartDatesInOrder(evs) && DaysInOrder(days)
    ensures forall i :: 0 <= i < |days| ==> Cells(evs, days)[i] == CoveringEvents(evs, days[i])
    decreases |days|
  {
    if days != [] {
      var rest := RemoveEarlierEvents(evs, days[0]);
      SuffixInOrder(evs, |evs| - |rest|);
      DaysTailInOrder(days);
      CellsAreCovering(rest, days[1..]);
      forall i | 0 <= i < |days| ensures Cells(evs, days)[i] == CoveringEvents(evs, days[i]) {
        if i > 0 {
          assert days[1..][i - 1] == days[i];
        }
        CellAt(evs, days, i);
      }
    }
  }

  /** Cell `i` covers its day, given that the cells after the first do. */
  lemma CellAt(evs: seq<Event>, days: seq<Date>, i: nat)
    requires i < |days| && DateLe(days[0], days[i])
    requires var rest := RemoveEarlierEvents(evs, days[0]);
      StartDatesInOrder(rest) && (i > 0 ==> Cells(rest, days[1..])[i - 1] == CoveringEvents(rest, days[i]))
    ensures Cells(evs, days)[i] == CoveringEvents(evs, days[i])
  {
    var rest := RemoveEarlierEvents(evs, days[0]);
    RemoveKeepsCovering(evs, days[0], days[i]);
    if i == 0 {
      CellHead(evs, days);
      DayCellIsCovering(rest, days[0]);
    } else {
      CellTail(evs, days, i);
    }
  }

  lemma CellHead(evs: seq<Event>, days: seq<Date>)
    requires days != []
    ensures Cells(evs, days)[0] == DayCell(RemoveEarlierEvents(evs, days[0]), days[0])
  {
  }

  lemma CellTail(evs: seq<Event>, days: seq<Date>, i: nat)
    requires 0 < i < |days|
    ensures Cells(evs, days)[i] == Cells(RemoveEarlierEvents(evs, days[0]), days[1..])[i - 1]
  {
  }

  /** One turn of the render loop: the cells so far followed by the cells of
      the remaining days are unchanged by taking one more day. */
  lemma CellsStep(cells: seq<seq<Event>>, evs: seq<Event>, days: seq<Date>, i: nat)
    requires i < |days|
    ensures var rest := RemoveEarlierEvents(evs, days[i]);
      cells + Cells(evs, days[i..]) == (cells + [DayCell(rest, days[i])]) + Cells(rest, days[i + 1..])
  {
    var rest := RemoveEarlierEvents(evs, days[i]);
    assert days[i..][1..] == days[i + 1..];
    assert Cells(evs, days[i..]) == [DayCell(rest, days[i])] + Cells(rest, days[i + 1..]);
  }

  /** The render loop over the grid's days (shared by both layouts): the cells
      it builds are `Cells(evs, days)`. */
  method DayCells(evs: seq<Event>, days: seq<Date>) returns (cells: seq<seq<Event>>)
    ensures cells == Cells(evs, days)
  {
    var rest := evs;
    cells := [];
    for i := 0 to |days|
      invariant cells + Cells(rest, days[i..]) == Cells(evs, days)
    {
      CellsStep(cells, rest, days, i);
      rest := RemoveEarlierEvents(rest, days[i]);
      cells := cells + [DayCell(rest, days[i])];
    }
    assert days[|days|..] == [];
  }
}
