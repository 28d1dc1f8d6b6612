# pical, modelled in Dafny

pical drives a Raspberry Pi e-ink panel as a wall calendar. The application:

- downloads iCalendar feeds, an Open-Meteo forecast and a Storm Glass lunar calendar;
- lays the days out as a month grid or as a twelve-day grid, each day cell listing the events that cover it;
- renders the picture to a bitmap;
- hands the bitmap to a separate driver process (`it8951-driver`) by writing one line to that process's stdin.

The driver reads that line and chooses a waveform. It packs the grey pixels four to a 16-bit word and sends only the rows that changed since the previous image.

This project models the sequential logic of that pipeline and proves what it promises. The pieces are:

- `cal.dfy` (module `Cal`): events from iCalendar property lists (RFC 5545).
  - Property lookup, the time-zone resolution table, `make_event`, and `parse_ical`'s gather-then-stable-sort.
  - `Event::covers`.
- `layout.dfy` (module `Layout`): the calendar grids.
  - `end_of_month`, `week_start` and `week_end`.
  - The month run of days and the twelve-day rows.
  - `remove_earlier_events`, and the per-day selection of `day_cell` over the progressively shrunk event slice.
- `driver.dfy` (module `It8951Driver`): the driver's side of the line protocol.
  - `parse_line` and the quality-to-waveform match.
  - Nibble packing (`luma8_pxs_into_packed_u16_vec`) and the changed-row filter (`enumerate_different_rows`).
- `weather.dfy` (module `Weather`) and `moon.dfy` (module `Moon`): the payload conversions.
  - The WMO weather-code table and the moon-phase phrases.
  - The loops that fill date-keyed maps and stop at the first bad entry.
  - `keyed_maps.dfy` (module `KeyedMaps`) holds the shape both loops share: convert each item with `?`, then `insert` it.
- `app_main.dfy` (module `AppMain`): the application's side of the protocol.
  - The `ScreenDriver` counters and the line `push_bitmap` writes.
  - The `.old` backup name of `save_img`.
  - The 60-day calendar fetch horizon.
  - `CommandLineRoundTrip` closes the loop across the two programs: the line `push_bitmap` writes is read back by `parse_line` as the intended command.
- Supporting modules, modelling the library behaviour the core relies on:
  - `dates.dfy` (`Dates`): proleptic Gregorian dates with a day number, weekdays, `next_day` and `previous_day`, and the `time` crate's last date 9999-12-31.
  - `offset_date_time.dfy` (`OffsetDateTimes`): date, seconds of day and UTC offset. Equality and order go through the UTC instant.
  - `iso8601.dfy` (`Iso8601`): the ISO 8601 layouts the core parses, each with a formatter and a round trip.
  - `stable_sort.dfy` (`StableSort`): `sort_by` as a stable sort by key, proved unique.
  - `rust_str.dfy` (`RustStr`): `split_whitespace` and `trim`.
  - `wrappers.dfy` (`Wrappers`): `Option` and `Result`.

The model follows the code as shown:

- `parse_ical` takes the data and an offset (app/data/cal.rs:30). It expands no RRULE and applies no horizon, although app/main.rs:321 passes a third `limit` argument.
- A `VALUE=DATE` start or end is midnight UTC (app/data/cal.rs:99-110). It is then converted to the target offset like every other time (app/data/cal.rs:50-51), so its local date can differ from the written date.
- `Australia/Sydney` is +11:00 in months 1–3 and 10–12 and +10:00 in months 4–9, by the month of the local reading (app/data/cal.rs:137-138). No daylight-saving transition day is modelled, because the code has none.

## Model

| member | source | states |
|---|---|---|
| Cal.CoversIsDayWalk | app/data/cal.rs:22-24 | an event covers a date exactly when walking from its start date by `next_day`, while not after its end date, meets that date (the quickcheck property at app/data/cal.rs:175-184) |
| Cal.FirstIndex | app/data/cal.rs:64-66 | the index found is the first whose element satisfies the predicate; None means no element does |
| Cal.FirstNamedUnique | app/data/cal.rs:64-66 | there is only one first property with a given name |
| Cal.Find | app/data/cal.rs:64-66 | None exactly when no property has the name; otherwise the first property with that exact name |
| Cal.Parse | app/data/cal.rs:68-86 | Some exactly when a property with the name exists and the conversion of the first one succeeds; the result is that conversion |
| Cal.Str | app/data/cal.rs:88-90 | the value of the first property with the name; None when absent or when that property has no value |
| Cal.FindParam | app/data/cal.rs:151-158 | None without parameters; otherwise the first value of the first parameter with that name, None when that parameter has no values |
| Cal.ZoneParam | app/data/cal.rs:95 | TZID is consulted first, VALUE only when TZID gives nothing |
| Cal.SydneyOffset | app/data/cal.rs:137-138 | +11:00 exactly for months ≤ 3 or ≥ 10, +10:00 exactly for months 4–9 |
| Cal.Resolve | app/data/cal.rs:97-146 | the resolution table in both directions, each value read in the basic or the extended layout: DATE is the parsed date at midnight with offset 0; Brisbane is the parsed reading at +10:00; Sydney is the parsed reading at `SydneyOffset(month)`; any other identifier gives None; no parameter takes the offset written in the value |
| Cal.ResolveProperty | app/data/cal.rs:93-96 | a property without a value gives None; otherwise its value is resolved under its zone parameter |
| Cal.DateTime | app/data/cal.rs:92-148 | None when the property is absent; otherwise the resolution of the first property with the name |
| Cal.MakeEvent | app/data/cal.rs:47-59 | an event exactly when SUMMARY, DTSTART and DTEND all resolve; it copies the summary and re-expresses start and end in the target offset without changing their instants |
| Cal.FilterMapMembers | app/data/cal.rs:35-39 | `filter_map` keeps exactly the successful conversions |
| Cal.Events | app/data/cal.rs:36-38 | the events of a block are exactly the components for which `make_event` succeeds; the others are dropped silently |
| Cal.GatheredInOffset | app/data/cal.rs:32-40 | every gathered event's start and end are in the target offset |
| Cal.FirstErrorAt | app/data/cal.rs:33-34 | the first block that is an error is the one `?` returns |
| Cal.GatheredStep | app/data/cal.rs:35-39 | one more block appends that block's events after the earlier ones (`extend`) |
| Cal.GatherBlocks | app/data/cal.rs:30-40 | the first structural error fails the call with that block's message; otherwise the events of all blocks in block and component order |
| Cal.SortByStart | app/data/cal.rs:42 | the in-place sort leaves the stable sort by start instant |
| Cal.ParseIcal | app/data/cal.rs:30-45 | `parse_ical`: the first block error, or the gathered events stably sorted by start |
| Cal.SortedInOneOffset | app/data/cal.rs:29 | events sorted by start instant and all in one offset have their local start dates in order |
| Cal.ParseIcalResult | app/data/cal.rs:29-45 | the result is sorted by start, a permutation of the gathered events, keeps events with equal starts in their original order, and has non-decreasing start dates |
| Cal.TenOClockInZone | app/data/cal.rs:111-140 | a basic-layout ten o'clock reading resolves under Brisbane to +10:00 and under Sydney to the month's offset |
| Cal.BrisbaneExample | app/data/cal.rs:111-122 | `20240615T100000` in Brisbane is 10:00 at +10:00 |
| Cal.SydneyJuneExample | app/data/cal.rs:123-140 | `20240615T100000` in Sydney is 10:00 at +10:00 |
| Cal.SydneyJanuaryExample | app/data/cal.rs:123-140 | `20240115T100000` in Sydney is 10:00 at +11:00 |
| Cal.DateValueExample | app/data/cal.rs:99-110 | `20240615` and `2024-06-15` with VALUE=DATE are both midnight UTC on that date |
| Cal.MidnightUtcInBrisbane | app/data/cal.rs:50-51 | midnight UTC re-expressed at +10:00 is 10:00 on the same date |
| Layout.EndOfMonth | app/layout.rs:241-244 | same year and month, day = days in that month, not before the input, and the next day is in another month |
| Layout.FirstOfMonth | app/layout.rs:210 | `replace_day(1)`: same year and month, day 1, not after the input |
| Layout.PrevOccurrence | app/layout.rs:252 | `prev_occurrence`: the given weekday, 1 to 7 days earlier |
| Layout.NextOccurrence | app/layout.rs:260 | `next_occurrence`: the given weekday, 1 to 7 days later |
| Layout.WeekStart | app/layout.rs:248-254 | a Monday, not after the input and at most 6 days before it; the input itself when it is a Monday |
| Layout.WeekEnd | app/layout.rs:256-262 | a Sunday, not before the input and at most 6 days after it; the input itself when it is a Sunday |
| Layout.CollectDays | app/layout.rs:212-214 | the `successors`/`take_while` loop collects exactly the contiguous run of days from start to end |
| Layout.MonthDays | app/layout.rs:210-215 | the month run is the days from `week_start` of the 1st to `week_end` of the month's end; its length is a positive multiple of 7, and it contains every day of the month |
| Layout.MonthRunCoversMonth | app/layout.rs:210-214 | every day of the month is in the month run |
| Layout.MonthRunIsWholeWeeks | app/layout.rs:215 | a run from a Monday to a later Sunday has a length that is a positive multiple of 7 |
| Layout.Successors | app/layout.rs:153-156 | `successors(start, next_day).take(n)`: day `i` is `start` plus `i` days, and there are `n` of them unless the walk passes the last date |
| Layout.ZipRowAsWritten | app/layout.rs:164 | `days.zip(cs)` over a shared iterator, driven by `Zip::next` (a day is pulled before the columns are found exhausted): the row holds the next `columns` days, and one more day is consumed and dropped |
| Layout.ZipRow | app/layout.rs:164 | the intended row: the next `columns` days, with nothing else consumed |
| Layout.RowsAsWritten | app/layout.rs:159-166 | the four rows as written, under the `Zip::next` order of `ZipRowAsWritten`, take items 4r to 4r+3 (clipped) |
| Layout.Rows | app/layout.rs:159-166 | the four rows as intended take items 3r to 3r+3 (clipped) |
| Layout.TwelveDayRowsAsWritten | app/layout.rs:152-166 | the twelve-day rows as written, over the twelve collected days |
| Layout.TwelveDaySkipsDays | app/layout.rs:152-166 | as written, under the `Zip::next` order of `ZipRowAsWritten`, rows 0-2 hold three days each, cell (r, c) being today plus 4r+c days; the fourth row is empty; today+3, today+7 and today+11 appear nowhere |
| Layout.TwelveDayRows | app/layout.rs:152-166 | the twelve-day rows as intended |
| Layout.TwelveDayGrid | app/layout.rs:152-162 | as intended, four rows of three, and cell (r, c) is today plus 3r+c days |
| Layout.RemoveEarlierEvents | app/layout.rs:264-272 | a suffix of the slice; it starts at the first event that starts on or after the day or covers it (empty when there is none); every dropped event ends before the day |
| Layout.RemoveKeepsCovering | app/layout.rs:264-272 | shrinking at day `b` never drops an event covering `b` or a later day |
| Layout.CoveringEvents | app/layout.rs:304 | the `filter(covers)`: exactly the events of the slice that cover the day |
| Layout.StartedBy | app/layout.rs:303 | the `take_while`: the longest prefix of events starting on or before the day |
| Layout.StartedByStart | app/layout.rs:303 | every event taken starts on or before the day |
| Layout.CoveringAppend | app/layout.rs:304 | filtering distributes over concatenation |
| Layout.LaterNotCovering | app/layout.rs:303 | in a slice sorted by start date, no event from one that starts after the day on covers the day |
| Layout.DayCellIsCovering | app/layout.rs:302-305 | over events sorted by start date, the cut-off `take_while` loses nothing: the cell is exactly the covering events |
| Layout.Cells | app/layout.rs:161-176 | one cell per day |
| Layout.CellsAreCovering | app/layout.rs:161-176 | with sorted events and days in order, the cell of each day, computed on the progressively shrunk slice, is exactly the events covering that day |
| Layout.CellsStep | app/layout.rs:164-176 | one turn of the render loop: shrink at the day, show that day's cell, continue with the shrunk slice |
| Layout.DayCells | app/layout.rs:161-176 | the render loop over the days computes `Cells` |
| It8951Driver.FlagQuality | it8951-driver/src/main.rs:134-143 | `--reset`, `--high` and `--low` and nothing else set Reset, High and Low |
| It8951Driver.ReadCommand | it8951-driver/src/main.rs:126-146 | an error ("no image path given") exactly when there is no token; otherwise the image is the first token; a lone image is High with no diff; a flag in second place sets the quality and the third token is the diff; any other second token is the diff at High |
| It8951Driver.ParseLine | it8951-driver/src/main.rs:126-146 | the mutable-iterator parse equals `ReadCommand` of the line's whitespace-separated words |
| It8951Driver.ReadTokens | it8951-driver/src/main.rs:128-145 | a command written as image, flag and diff is read back as itself |
| It8951Driver.ParseLineRoundTrip | it8951-driver/src/main.rs:126-146 | for whitespace-free paths, parsing the space-joined command gives back the command |
| It8951Driver.ExtraTokensIgnored | it8951-driver/src/main.rs:145 | tokens after the diff path do not change the result |
| It8951Driver.PlanFor | it8951-driver/src/main.rs:105-113 | DU4 exactly for Low; the panel is reset exactly for Reset, which also drops the diff; High and Low keep it |
| It8951Driver.FoldNibblesBound | it8951-driver/src/main.rs:273 | folding up to four nibbles stays below 16^n, so no `<< 4` loses a nibble |
| It8951Driver.FullWord | it8951-driver/src/main.rs:270-273 | a full run of four pixels packs the first pixel's nibble highest: p0/16·4096 + p1/16·256 + p2/16·16 + p3/16 |
| It8951Driver.Reverse | it8951-driver/src/main.rs:267 | the in-place `reverse` leaves the reversed pixel sequence |
| It8951Driver.ReversedChunk | it8951-driver/src/main.rs:267-271 | reversing a chunk of the reversed sequence gives back the original pixels in their order |
| It8951Driver.FullPackedWord | it8951-driver/src/main.rs:265-276 | word k packs pixels n-4k-4 to n-4k-1, the lower index in the more significant nibble |
| It8951Driver.ShortPackedWord | it8951-driver/src/main.rs:265-276 | when n is not a multiple of 4, the last word packs the first n mod 4 pixels and stays below 16^(n mod 4) |
| It8951Driver.PackPixels | it8951-driver/src/main.rs:265-276 | ⌈n/4⌉ words, word k being `PackedWord(pxs, k)` |
| It8951Driver.SentMembers | it8951-driver/src/main.rs:239-249 | a row is yielded exactly when the diff has no such row or it differs, and it keeps its index |
| It8951Driver.SentInOrder | it8951-driver/src/main.rs:244-248 | the rows are yielded in increasing index order |
| It8951Driver.SentAll | it8951-driver/src/main.rs:243-247 | with no diff every row is yielded, with its index |
| It8951Driver.DifferentRows | it8951-driver/src/main.rs:239-249 | the filter loop with its mutable diff iterator yields `Sent` |
| Weather.CodeTable | app/data/weather.rs:88-101 | a code reads as a kind of weather exactly when it is one of that kind's WMO codes |
| Weather.CodeKnown | app/data/weather.rs:90-100 | the 28 listed codes are read; every other code is an error naming the code |
| Weather.Rows | app/data/weather.rs:57-62 | the zip has as many rows as the shortest column, and row i holds entry i of each column |
| Weather.DayEntry | app/data/weather.rs:63-74 | an unparseable date, then a missing code, then an unknown code fail, with those errors; otherwise the parsed date with an observation of no humidity and the copied temperature and precipitation probability |
| Weather.Converted | app/data/weather.rs:35-84 | an unknown current code fails first; success exactly when every day converts; the current observation has humidity and no precipitation probability |
| Weather.ForecastKeys | app/data/weather.rs:56-77 | on success every day converted, and the forecast's dates are exactly the rows' parsed dates |
| Weather.ForecastDay | app/data/weather.rs:69-76 | a date holds the observation of its last row |
| Weather.ForecastError | app/data/weather.rs:57-68 | a failure is the error of the first failing day |
| Weather.FromOpenMeteo | app/data/weather.rs:35-84 | the loop that inserts into the map and returns on the first bad day computes `Converted` |
| Moon.PhaseTable | app/data/moon.rs:52-66 | a text reads as a phase exactly when it is that phase's phrase, case-sensitively; any other text is an error |
| Moon.PhaseRoundTrip | app/data/moon.rs:55-63 | each phase's phrase reads back as that phase |
| Moon.DayEntry | app/data/moon.rs:35-42 | an unparseable time fails first, then an unknown phrase; otherwise the local date at the offset keyed to the phase |
| Moon.Calendar | app/data/moon.rs:31-49 | success exactly when every datum converts |
| Moon.CalendarKeys | app/data/moon.rs:32-42 | the calendar's dates are exactly the local dates of the timestamps |
| Moon.CalendarDay | app/data/moon.rs:42 | a date holds the phase of the last datum falling on it |
| Moon.CalendarError | app/data/moon.rs:34-40 | a failure is the error of the first failing datum |
| Moon.FromStormGlass | app/data/moon.rs:31-49 | the loop that inserts into the map and returns on the first bad datum computes `Calendar` |
| KeyedMaps.EntriesOk | app/data/weather.rs:57-77 | the conversion succeeds exactly when every item converts, and entry i is item i's |
| KeyedMaps.EntriesFirstError | app/data/moon.rs:34-40 | a failure is the first failing item's error |
| KeyedMaps.EntriesErrSticky | app/data/moon.rs:37 | once an item fails, the items after it are never looked at |
| KeyedMaps.InsertAllKeys | app/data/weather.rs:76 | inserting grows the key set by exactly the entries' keys |
| KeyedMaps.InsertAllLastWins | app/data/weather.rs:76 | a repeated key keeps the value of its last entry |
| KeyedMaps.InsertAllUntouched | app/data/moon.rs:42 | a key no entry names keeps its earlier value |
| KeyedMaps.CollectMap | app/data/moon.rs:32-43 | the map's keys are exactly the items' keys, each holding the value of its last item |
| KeyedMaps.CollectError | app/data/weather.rs:63-68 | a failure is the first failing item's error |
| AppMain.Bumped | app/main.rs:445-446 | both counters go up by one, wrapping at 2^8 and 2^16 |
| AppMain.HighEveryEleventh | app/main.rs:448 | with `count` in its range, a push is a high refresh exactly when `count` was 10 |
| AppMain.CommandLine | app/main.rs:447-460 | the line starts with the image path and ends with the one newline pushed |
| AppMain.CommandLineJoins | app/main.rs:447-460 | the line is the space-joined tokens (image, then `--high`, or `--low` and the diff) plus a newline |
| AppMain.CommandLineRoundTrip | app/main.rs:447-460 | for whitespace-free paths, `parse_line` of the trimmed line gives (img, High, None) on a high refresh, (img, Low, diff) with a diff, and (img, High, None) without |
| AppMain.LineWords | it8951-driver/src/main.rs:101 | trimming the line and dropping its newline do not change its words |
| AppMain.AfterPush | app/main.rs:445-488 | `count` ends at most 10; a failed write fails with its error; success exactly when the write did not fail and any needed restart worked; a restart zeroes both counters; otherwise the counters are `Settled`; a failed kill or start fails with that error |
| AppMain.Settled | app/main.rs:445-451 | `count` ends at most 10, `reset_count` is bumped, and `count` is zeroed exactly on a high refresh; otherwise both counters are just bumped |
| AppMain.PushesCountUp | app/main.rs:482 | below 180 pushes a written line needs no restart and `reset_count` goes up by one |
| AppMain.RestartAfterLimit | app/main.rs:482-486 | the push after the 180th restarts the driver with both counters zero |
| AppMain.ScreenDriver.Start | app/main.rs:424-436 | a started driver holds the process with both counters zero |
| AppMain.ScreenDriver.Push | app/main.rs:440-489 | the line is `CommandLine` for the old counters, the new counters and outcome are `AfterPush`, and the process is replaced exactly on a successful restart |
| AppMain.PushBitmap | app/main.rs:440-444 | no driver fails with "not started" and writes nothing; otherwise the line is `CommandLine` for the old counters, the new counters and outcome are `AfterPush`, and the process is replaced exactly on a successful restart, as in `ScreenDriver.Push` |
| AppMain.LastIndexOf | app/main.rs:239-241 | the index of the last occurrence; None when there is none |
| AppMain.Parent | app/main.rs:245 | the directory part, ending in `/` or empty, followed by the last component, is the path |
| AppMain.FileName | app/main.rs:239-241 | `file_name`: the last component, None exactly when it is empty, `.` or `..` |
| AppMain.SplitAtDot | app/main.rs:239-241 | `file_stem`/`extension`: stem, a dot and the extension rebuild the name; the stem is not empty and the extension has no dot |
| AppMain.BackupFileName | app/main.rs:237-244 | the backup name is four characters longer than the name |
| AppMain.BackupBesideOriginal | app/main.rs:236-247 | the backup is in the same directory, is `stem.old.ext` (or `name.old` with no extension), and is never the original path |
| AppMain.NoSlashComponent | app/main.rs:245 | `with_file_name` on a directory then gives back that name as the file name |
| AppMain.DotSplit | app/main.rs:241 | a dotted name splits at its last dot |
| AppMain.SaveImgBackup | app/main.rs:234-250 | the backup path when the file exists, None otherwise |
| AppMain.NthSuccessor | app/main.rs:314-315 | `successors(next_day).nth(n)`: Some exactly when the date n days on is representable, and then it is that date |
| AppMain.NthSuccessorIsWalk | app/main.rs:314-315 | `nth(n)` of the successor walk agrees with the walk `Layout.Successors` takes: it exists exactly when that walk reaches n+1 days, and it is that walk's last day |
| AppMain.FetchLimit | app/main.rs:314-317 | same time and offset; the date 60 days on (60 days of seconds later) when it exists, `now` itself otherwise |
| Dates.NextDay | app/layout.rs:153 | `next_day` is the following day |
| Dates.PrevDay | app/layout.rs:252 | the previous day |
| Dates.NextDayChecked | app/main.rs:314 | `next_day` returns None exactly on the last representable date, 9999-12-31 |
| Dates.DateLeIsFieldOrder | app/data/cal.rs:23 | date order is the field order on (year, month, day) |
| Dates.DayNumberInjective | app/data/cal.rs:23 | distinct dates have distinct day numbers |
| Dates.DaysThroughContains | app/data/cal.rs:178-180 | the day run from s to e holds exactly the dates between them |
| Dates.DaysThroughAt | app/layout.rs:212-213 | day i of the run is s plus i days |
| Dates.AddDaysCompose | app/layout.rs:153 | stepping m then n days is stepping m+n days |
| OffsetDateTimes.ToOffset | app/data/cal.rs:50-51 | `to_offset` keeps the instant and takes the new offset |
| OffsetDateTimes.ToOffsetUnique | app/data/moon.rs:38 | the reading with a given offset and instant is unique, so `to_offset` is idempotent |
| OffsetDateTimes.SameOffsetOrder | app/layout.rs:147 | in one offset, instant order implies local date order |
| Iso8601.DateRoundTrip | app/data/cal.rs:99-110 | a formatted date is parsed back, in either layout |
| Iso8601.TimeRoundTrip | app/data/cal.rs:8-12 | a formatted second-precision time is parsed back |
| Iso8601.PrimitiveDateTimeRoundTrip | app/data/cal.rs:111-122 | a formatted date-time without offset is parsed back |
| Iso8601.OffsetRoundTrip | app/data/cal.rs:145 | a formatted whole-minute offset is parsed back |
| Iso8601.OffsetDateTimeRoundTrip | app/data/cal.rs:145 | a formatted date-time with offset is parsed back |
| Iso8601.DateAnyLayoutRoundTrip | app/data/weather.rs:63 | the date parse used for the forecast reads either layout back |
| Iso8601.PrimitiveDateTimeAnyLayoutRoundTrip | app/data/cal.rs:111-122 | the date-time parse used for zoned iCalendar values reads either layout back |
| Iso8601.OffsetDateTimeAnyLayoutRoundTrip | app/data/moon.rs:33-35 | the date-time parse used for the moon data reads either layout back |
| StableSort.SortFacts | app/data/cal.rs:42 | the stable sort is sorted by key, a permutation, and keeps each key's elements in their original order |
| StableSort.StableSortIsUnique | app/data/cal.rs:42 | any two sequences sorted by key that keep every key's elements in the same order are equal, so the stable sort is determined |
| StableSort.InsertLast | app/data/cal.rs:42 | one insertion step places the next element after every element with a key not greater |
| StableSort.SortInPlace | app/data/cal.rs:42 | the in-place sort leaves `Sort` of the old contents |
| RustStr.WordsJoin | it8951-driver/src/main.rs:127 | `split_whitespace` of whitespace-free words joined by spaces gives back the words |
| RustStr.WordsTrim | it8951-driver/src/main.rs:101 | `trim` does not change the words of a line |
| RustStr.SplitWhitespace.Next | it8951-driver/src/main.rs:127-142 | each `next` yields the first remaining word and leaves the rest, None once the words are used up |

## Left out

- Network and file I/O are not modelled: the HTTP fetches, reading images, and the `rename` and save in `save_img`. `Path::exists` is a boolean parameter of `AppMain.SaveImgBackup`.
- `Instant::now` and the `last_update` fields are not modelled.
- The async runtime, the `DRIVER_PROCESS` mutex and the timers are not modelled. The 60-second write timeout is the `TimedOut` outcome of a parameter.
- The driver process's spawn and kill are not modelled. Their results are the `RestartOutcome` parameter. A process is a number.
- The SPI and GPIO device code of the driver, image decoding, and the `IT8951` calls are not modelled.
- The egui widgets, fonts, frames and `f32` sizes are not modelled. Each twelve-day row is taken to have the three columns `ui.columns(3, ..)` hands out.
- The `ical` crate's lexer is not modelled. Its output is the input: a sequence of blocks, each an error or the property lists of its events.
- `serde` deserialisation is not modelled.
- Logging is not modelled.
- Error messages are datatypes naming the failure and its subject, not formatted strings.
- The `f32` weather readings are opaque bits: they are only copied.
- Iso8601.ParseDateAnyLayout: the `time` crate's ISO 8601 parser accepts more than the two layouts modelled (basic and extended calendar dates; second-precision times; `Z`, `±HH`, `±HHMM` or `±HH:MM` offsets). Ordinal and week dates, fractional and reduced-precision times, and expanded years are rejected by the model. So are the trailing components the crate's parser reads and then ignores: a time or an offset after a date parsed as a `Date`, and an offset after a date-time parsed as a `PrimitiveDateTime`.
- Iso8601.ParseOffsetDateTimeAnyLayout: as above.
- Iso8601.ParsePrimitiveDateTimeAnyLayout: as above.
- AppMain.FileName: path handling is that of a plain string split at the last `/`. `Path`'s normalisation of a trailing `/`, of `.` components and of repeated separators is not modelled, nor are non-UTF-8 names.
- AppMain.Bumped: the counters wrap as in a release build. A debug build panics on overflow instead. With `count` reset at 11 and `reset_count` restarting at 181, neither wraps in a running driver.
- The `.take(panel_height)` and `.take(panel_width)` bounds of the driver's image push are not modelled. Images are sequences of rows of bytes.
- Layout.ZipRowAsWritten: models `zip` in the order of `Zip::next`. A standard library that specialises `Zip::fold` for two `TrustedLen` sides takes exactly as many days as there are columns; that behaviour is the one `Layout.ZipRow` models.
- Layout.Successors: `successors(..).take(12)` stops early past 9999-12-31. The twelve-day lemmas require today to be at least twelve days before that date.
- Dates: years are unbounded. The `time` crate's `Date` holds years -9999 to 9999; its `previous_day` returns None at the first date, and `prev_occurrence`, `next_occurrence` and the week arithmetic panic when they would leave the range. `Dates.PrevDay`, `Layout.PrevOccurrence`, `Layout.NextOccurrence`, `Layout.WeekStart` and `Layout.WeekEnd` go on past either end instead (e.g. the week end of 9999-12-31 is in year 10000).
- The Monday-to-Sunday header row of the month grid is not modelled: it is a constant label row.

## Findings

| source | as written | input that shows it | evidently intended | confidence | as-written member | corrected member |
|---|---|---|---|---|---|---|
| app/layout.rs:153-166 | where `days.zip(cs).for_each(..)` is driven by `Zip::next`, each row pulls a fourth day from the shared `days` iterator before it finds the three columns exhausted, and that day is dropped | any `today` (e.g. 2024-06-15): the rows show today+0..2, today+4..6 and today+8..10, and the fourth row is empty; today+3, today+7 and today+11 are never shown | four rows of three consecutive days covering today..today+11 | not executed; holds only for a standard library whose `Zip::for_each` goes through `Zip::next`. The repository pins no toolchain. Where `Zip::fold` is specialised for two `TrustedLen` sides, as `&mut vec::IntoIter` and `slice::IterMut` are, it takes min(9, 3) = 3 paired steps and no day is dropped; which library the program is built with is unknown | Layout.TwelveDaySkipsDays | Layout.TwelveDayGrid |
