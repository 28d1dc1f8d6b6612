// The application's bookkeeping around the display: the counters the driver
// process handle keeps and the command line it writes to the driver, the
// backup name an old bitmap is renamed to, and how far ahead calendars are
// fetched.

module AppMain {
  import opened Wrappers
  import opened Dates
  import opened OffsetDateTimes
  import opened RustStr
  import opened It8951Driver
  import Layout

  type U8 = x: int | 0 <= x < 0x100
  type U16 = x: int | 0 <= x < 0x1_0000

  /** More low-quality refreshes than this in a row trigger a high one. */
  const LowRefreshes := 10

  /** More pushes than this on one driver process trigger a restart. */
  const PushesPerProcess := 180

  /** How the write of the line to the driver's stdin ended. */
  datatype WriteOutcome = Written | WriteFailed | TimedOut

  /** How killing the driver and starting a new one ended. */
  datatype RestartOutcome = Restarted(process: nat) | KillFailed | StartFailed

  /** The diagnostics `push_bitmap` can fail with. */
  datatype PushError =
    | NotStarted  // "it8951-driver process not started"
    | WriteError  // the write's own error, or "no stdin pipe for it8951-driver"
    | KillError
    | StartError  // "failed to start ./it8951-driver"

  /** The two counters of a `ScreenDriver`. */
  datatype Counters = Counters(count: U8, resetCount: U16)

  /** `count += 1; reset_count += 1` on `u8` and `u16`. */
  function Bumped(c: Counters): (b: Counters)
    ensures c.count < 0xFF ==> b.count == c.count + 1
    ensures c.resetCount < 0xFFFF ==> b.resetCount == c.resetCount + 1
  {
    Counters((c.count + 1) % 0x100, (c.resetCount + 1) % 0x1_0000)
  }

  /** Whether this push asks for a high-quality refresh. */
  predicate HighRefresh(c: Counters) {
    Bumped(c).count > LowRefreshes
  }

  /** With the count in its range, every eleventh push is a high refresh. */
  lemma HighEveryEleventh(c: Counters)
    requires c.count <= LowRefreshes
    ensures HighRefresh(c) <==> c.count == LowRefreshes
  {
  }

  /** The line `push_bitmap` writes: the image path, then ` --high` on a high
      refresh, or ` --low ` and the diff path when one is given, then a newline. */
  function CommandLine(img: string, diff: Option<string>, high: bool): (line: string)
    ensures |line| > |img| && line[..|img|] == img && line[|line| - 1] == '\n'
  {
    (if high then img + " --high" else if diff.Some? then img + " --low " + diff.value else img) + "\n"
  }

  /** The tokens the line spells. */
  function CommandTokens(img: string, diff: Option<string>, high: bool): seq<string> {
    if high then [img, "--high"] else if diff.Some? then [img, "--low", diff.value] else [img]
  }

  lemma CommandLineJoins(img: string, diff: Option<string>, high: bool)
    ensures CommandLine(img, diff, high) == Join(CommandTokens(img, diff, high)) + "\n"
  {
    var ws := CommandTokens(img, diff, high);
    if high {
      assert Join(ws) == img + " " + "--high";
    } else if diff.Some? {
      assert Join(ws[1..]) == "--low" + " " + diff.value;
      assert Join(ws) == img + " " + ("--low" + " " + diff.value);
    }
  }

  /** Trimming the line and dropping its newline leave the same tokens. */
  lemma LineWords(body: string)
    ensures Words(Trim(body + "\n")) == Words(body)
  {
    WordsTrim(body + "\n");
    assert AllWhitespace("\n");
    WordsDropTrailing(body, "\n");
  }

  /** What the driver reads from the line: with whitespace-free paths, a high
      refresh is `--high` with no diff, otherwise a given diff is a `--low`
      refresh against it, and without one the image is shown at high quality. */
  lemma CommandLineRoundTrip(img: string, diff: Option<string>, high: bool)
    requires IsWord(img) && (diff.Some? ==> IsWord(diff.value))
    ensures ReadCommand(Words(Trim(CommandLine(img, diff, high)))) ==
      if high then Ok(Command(img, High, None))
      else if diff.Some? then Ok(Command(img, Low, diff))
      else Ok(Command(img, High, None))
  {
    var ws := CommandTokens(img, diff, high);
    CommandLineJoins(img, diff, high);
    LineWords(Join(ws));
    FlagIsWord(High);
    FlagIsWord(Low);
    WordsJoin(ws);
    ReadCommandTokens(img, diff, high);
  }

  lemma ReadCommandTokens(img: string, diff: Option<string>, high: bool)
    ensures ReadCommand(CommandTokens(img, diff, high)) ==
      if high then Ok(Command(img, High, None))
      else if diff.Some? then Ok(Command(img, Low, diff))
      else Ok(Command(img, High, None))
  {
  }

  /** The counters and the outcome after one `push_bitmap` on a running
      driver: bump both counters, reset `count` on a high refresh, write the
      line, then restart when the process has served enough pushes or the
      write timed out. */
  function AfterPush(c: Counters, write: WriteOutcome, restart: RestartOutcome): (r: (Counters, Result<(), PushError>))
    ensures r.0.count <= LowRefreshes
    ensures write == WriteFailed ==> r.1 == Err(WriteError)
    ensures r.1.Ok? <==> write != WriteFailed && (NeedsRestart(c, write) ==> restart.Restarted?)
    ensures write != WriteFailed && NeedsRestart(c, write) && restart.Restarted? ==> r.0 == Counters(0, 0)
    ensures !(write != WriteFailed && NeedsRestart(c, write) && restart.Restarted?) ==> r.0 == Settled(c)
    ensures write != WriteFailed && NeedsRestart(c, write) ==>
      (restart == KillFailed ==> r.1 == Err(KillError)) && (restart == StartFailed ==> r.1 == Err(StartError))
  {
    var c1 := Settled(c);
    if write == WriteFailed then (c1, Err(WriteError))
    else if NeedsRestart(c, write) then
      match restart
      case KillFailed => (c1, Err(KillError))
      case StartFailed => (c1, Err(StartError))
      case Restarted(_) => (Counters(0, 0), Ok(()))
    else (c1, Ok(()))
  }

  /** The counters once bumped and, on a high refresh, with `count` reset. */
  function Settled(c: Counters): (s: Counters)
    ensures s.count <= LowRefreshes && s.resetCount == Bumped(c).resetCount
    ensures HighRefresh(c) <==> s.count == 0 && Bumped(c).count != 0
    ensures HighRefresh(c) ==> s == Counters(0, Bumped(c).resetCount)
    ensures !HighRefresh(c) ==> s == Bumped(c)
  {
    var b := Bumped(c);
    if b.count > LowRefreshes then Counters(0, b.resetCount) else b
  }

  /** `reset_count > 180 || reset`. */
  predicate NeedsRestart(c: Counters, write: WriteOutcome) {
    Settled(c).resetCount > PushesPerProcess || write == TimedOut
  }

  /** Successful pushes count up to the restart: with the count below the
      limit, a push that was written and not restarted adds one to it. */
  lemma PushesCountUp(c: Counters, restart: RestartOutcome)
    requires c.resetCount < PushesPerProcess
    ensures !NeedsRestart(c, Written)
    ensures AfterPush(c, Written, restart) == (Settled(c), Ok(()))
    ensures AfterPush(c, Written, restart).0.resetCount == c.resetCount + 1
  {
  }

  /** The push after the 180th on one process restarts it. */
  lemma RestartAfterLimit(c: Counters, p: nat)
    requires c.resetCount == PushesPerProcess
    ensures NeedsRestart(c, Written)
    ensures AfterPush(c, Written, Restarted(p)) == (Counters(0, 0), Ok(()))
  {
  }

  /** `ScreenDriver`: the driver process and its two counters. */
  class ScreenDriver {
    var process: nat
    var count: U8
    var resetCount: U16

    /** `ScreenDriver::start` once the process is spawned. */
    constructor Start(process: nat)
      ensures this.process == process && count == 0 && resetCount == 0
    {
      this.process := process;
      count := 0;
      resetCount := 0;
    }

    function State(): Counters
      reads this
    {
      Counters(count, resetCount)
    }

    /** `push_bitmap` on a started driver. */
    method Push(img: string, diff: Option<string>, write: WriteOutcome, restart: RestartOutcome)
      returns (line: string, r: Result<(), PushError>)
      modifies this
      ensures line == CommandLine(img, diff, HighRefresh(old(State())))
      ensures (State(), r) == AfterPush(old(State()), write, restart)
      ensures process ==
        if write != WriteFailed && NeedsRestart(old(State()), write) && restart.Restarted? then restart.process
        else old(process)
    {
      count := (count + 1) % 0x100;
      resetCount := (resetCount + 1) % 0x1_0000;
      line := img;
      if count > LowRefreshes {
        count := 0;
        line := line + " --high";
      } else {
        if diff.Some? {
          line := line + " --low ";
          line := line + diff.value;
        }
      }
      line := line + "\n";
      var reset := false;
      match write {
        case WriteFailed =>
          return line, Err(WriteError);
        case TimedOut =>
          reset := true;
        case Written =>
      }
      if resetCount > PushesPerProcess || reset {
        match restart {
          case KillFailed =>
            return line, Err(KillError);
          case StartFailed =>
            return line, Err(StartError);
          case Restarted(p) =>
            process := p;
            count := 0;
            resetCount := 0;
        }
      }
      r := Ok(());
    }
  }

  /** `push_bitmap`: the driver slot may be empty. */
  method PushBitmap(driver: ScreenDriver?, img: string, diff: Option<string>, write: WriteOutcome, restart: RestartOutcome)
    returns (line: Option<string>, r: Result<(), PushError>)
    modifies if driver == null then {} else {driver}
    ensures driver == null ==> line.None? && r == Err(NotStarted)
    ensures driver != null ==> line.Some? && line.value == CommandLine(img, diff, HighRefresh(old(driver.State())))
    ensures driver != null ==> (driver.State(), r) == AfterPush(old(driver.State()), write, restart)
    ensures driver != null ==>
      driver.process == if write != WriteFailed && NeedsRestart(old(driver.State()), write) && restart.Restarted?
        then restart.process else old(driver.process)
  {
    if driver == null {
      return None, Err(NotStarted);
    }
    var l;
    l, r := driver.Push(img, diff, write, restart);
    line := Some(l);
  }

  // The backup name of `save_img`.

  /** The index of the last `c` in `s`. */
  function LastIndexOf(s: string, c: char): (r: Option<nat>)
    ensures r.Some? ==> r.value < |s| && s[r.value] == c && forall k :: r.value < k < |s| ==> s[k] != c
    ensures r.None? ==> forall k :: 0 <= k < |s| ==> s[k] != c
  {
    if s == [] then None
    else if s[|s| - 1] == c then Some(|s| - 1)
    else LastIndexOf(s[..|s| - 1], c)
  }

  /** The text after the last `/`: the last component of a path. */
  function LastComponent(path: string): (name: string)
    ensures '/' !in name
  {
    match LastIndexOf(path, '/')
    case None => path
    case Some(i) => path[i + 1..]
  }

  /** Everything up to and including the last `/`. */
  function Parent(path: string): (dir: string)
    ensures dir + LastComponent(path) == path
    ensures dir == "" || dir[|dir| - 1] == '/'
  {
    match LastIndexOf(path, '/')
    case None => ""
    case Some(i) => path[..i + 1]
  }

  /** `Path::file_name`: the last component unless it is empty, `.` or `..`. */
  function FileName(path: string): (r: Option<string>)
    ensures r.Some? ==> r.value == LastComponent(path) && r.value != ""
    ensures r.None? <==> LastComponent(path) in {"", ".", ".."}
  {
    var name := LastComponent(path);
    if name == "" || name == "." || name == ".." then None else Some(name)
  }

  /** `rsplit_file_at_dot` as `file_stem` and `extension` read it: a name
      with no dot, or whose only dot leads it, is all stem. */
  function SplitAtDot(name: string): (r: (string, Option<string>))
    ensures r.1.None? ==> r.0 == name
    ensures r.1.Some? ==> r.0 + "." + r.1.value == name && r.0 != "" && '.' !in r.1.value
  {
    match LastIndexOf(name, '.')
    case None => (name, None)
    case Some(i) =>
      if i == 0 then (name, None)
      else
        assert name == name[..i] + "." + name[i + 1..];
        (name[..i], Some(name[i + 1..]))
  }

  /** The name an existing file is moved aside to: its stem, `.old`, then its
      extension if it has one. */
  function BackupFileName(name: string): (o: string)
    ensures |o| == |name| + 4
  {
    var (stem, ext) := SplitAtDot(name);
    stem + ".old" + (if ext.Some? then "." + ext.value else "")
  }

  /** `Path::with_file_name`: replace the file name, or add a component when
      there is none. */
  function WithFileName(path: string, o: string): (r: string)
  {
    if FileName(path).Some? then Parent(path) + o
    else if path == "" || path[|path| - 1] == '/' then path + o
    else path + "/" + o
  }

  /** The backup path of an existing file. */
  function BackupPath(path: string): (r: string)
  {
    var o := match FileName(path) case None => ".old" case Some(name) => BackupFileName(name);
    WithFileName(path, o)
  }

  /** A file's backup sits in the same directory, under the stem with `.old`
      appended and the same extension, so it never has the file's own name. */
  lemma BackupBesideOriginal(path: string)
    requires FileName(path).Some?
    ensures var name := FileName(path).value;
      var (stem, ext) := SplitAtDot(name);
      var b := BackupPath(path);
      b == Parent(path) + BackupFileName(name) &&
      FileName(b) == Some(BackupFileName(name)) &&
      (ext.Some? ==> SplitAtDot(BackupFileName(name)) == (stem + ".old", ext)) &&
      (ext.None? ==> BackupFileName(name) == name + ".old") &&
      b != path
  {
    var name := FileName(path).value;
    var (stem, ext) := SplitAtDot(name);
    var o := BackupFileName(name);
    var b := BackupPath(path);
    assert '/' !in o by {
      if ext.Some? {
        assert o == stem + ".old" + "." + ext.value;
        assert stem + "." + ext.value == name;
      }
    }
    NoSlashComponent(Parent(path), o);
    if ext.Some? {
      DotSplit(stem + ".old", ext.value);
    }
    assert |b| == |path| + 4 by {
      assert |Parent(path)| + |name| == |path|;
    }
  }

  /** A name with no `/` is the last component of anything it ends. */
  lemma NoSlashComponent(dir: string, o: string)
    requires '/' !in o && o != "" && o != "." && o != ".." && (dir == "" || dir[|dir| - 1] == '/')
    ensures LastComponent(dir + o) == o && Parent(dir + o) == dir && FileName(dir + o) == Some(o)
  {
    var s := dir + o;
    var k := LastIndexOf(s, '/');
    if dir == "" {
      assert s == o;
    } else {
      assert s[|dir| - 1] == '/';
      assert forall j :: |dir| <= j < |s| ==> s[j] == o[j - |dir|];
      assert k == Some(|dir| - 1);
      assert s[|dir|..] == o && s[..|dir|] == dir;
    }
  }

  /** Splitting `s . e` at its last dot, when `e` has no dot and `s` is not empty. */
  lemma DotSplit(s: string, e: string)
    requires '.' !in e && s != ""
    ensures SplitAtDot(s + "." + e) == (s, Some(e))
  {
    var t := s + "." + e;
    assert t[|s|] == '.';
    assert forall j :: |s| < j < |t| ==> t[j] == e[j - |s| - 1];
    assert LastIndexOf(t, '.') == Some(|s|);
    assert t[..|s|] == s && t[|s| + 1..] == e;
  }

  /** `save_img`'s choice of the name an existing bitmap is renamed to; no
      rename when there is no file (`present` stands for `Path::exists`). */
  method SaveImgBackup(to: string, present: bool) returns (backup: Option<string>)
    ensures backup == if present then Some(BackupPath(to)) else None
  {
    if !present {
      return None;
    }
    var file := FileName(to);
    var o := match file case None => "" case Some(name) => SplitAtDot(name).0;
    o := o + ".old";
    var ext := match file case None => None case Some(name) => SplitAtDot(name).1;
    if ext.Some? {
      o := o + ".";
      o := o + ext.value;
    }
    assert o == match file case None => ".old" case Some(name) => BackupFileName(name);
    backup := Some(WithFileName(to, o));
  }

  // The calendar fetch horizon.

  /** `successors(Some(d), next_day).nth(n)`: the date `n` days on, unless the
      walk runs past the last representable date. */
  function NthSuccessor(d: Date, n: nat): (r: Option<Date>)
    ensures n > 0 ==> (r.Some? <==> DayNumber(d) + n <= MaxDayNumber)
    ensures r.Some? ==> DayNumber(r.value) == DayNumber(d) + n
    decreases n
  {
    if n == 0 then Some(d)
    else
      match NextDayChecked(d)
      case None => None
      case Some(e) => NthSuccessor(e, n - 1)
  }

  /** The `n`-th successor is the date the layout's walk of `n + 1` days ends
      on, and both walks stop at the same last representable date. */
  lemma {:induction false} NthSuccessorIsWalk(d: Date, n: nat)
    ensures NthSuccessor(d, n).Some? <==> |Layout.Successors(d, n + 1)| == n + 1
    ensures NthSuccessor(d, n).Some? ==> NthSuccessor(d, n) == Some(Layout.Successors(d, n + 1)[n])
    decreases n
  {
    if n > 0 {
      match NextDayChecked(d)
      case None =>
      case Some(e) =>
        NthSuccessorIsWalk(e, n - 1);
        assert Layout.Successors(d, n + 1) == [d] + Layout.Successors(e, n);
    }
  }

  /** The number of days ahead calendars are fetched. */
  const FetchDays := 60

  /** The fetch limit: `now` with its date moved `FetchDays` ahead, keeping the
      time of day and the offset, or `now` itself when that date would be past
      the last representable one. */
  function FetchLimit(now: OffsetDateTime): (limit: OffsetDateTime)
    ensures limit.time == now.time && limit.offset == now.offset
    ensures DayNumber(now.date) + FetchDays <= MaxDayNumber ==>
      DayNumber(limit.date) == DayNumber(now.date) + FetchDays &&
      Instant(limit) == Instant(now) + FetchDays * SecondsPerDay
    ensures DayNumber(now.date) + FetchDays > MaxDayNumber ==> limit == now
  {
    match NthSuccessor(now.date, FetchDays)
    case Some(d) => OffsetDateTime(d, now.time, now.offset)
    case None => now
  }
}
