// The lunar calendar from the Storm Glass payload: a moon phase for each local
// date.

module Moon {
  import opened Wrappers
  import opened Dates
  import opened OffsetDateTimes
  import opened Iso8601
  import opened KeyedMaps

  datatype Phase = NewMoon | WaxingCrescent | FirstQuarter | WaxingGibbous | FullMoon | WaningGibbous | ThirdQuarter | WaningCrescent

  /** The diagnostics the conversion can fail with. */
  datatype MoonError =
    | BadTime(text: string)       // "failed to parse time {time}"
    | UnknownPhase(text: string)  // "unknown moon phase: {x}"

  /** The phrase Storm Glass uses for each phase. */
  function PhaseText(p: Phase): string {
    match p
    case NewMoon => "New moon"
    case WaxingCrescent => "Waxing crescent"
    case FirstQuarter => "First quarter"
    case WaxingGibbous => "Waxing gibbous"
    case FullMoon => "Full moon"
    case WaningGibbous => "Waning gibbous"
    case ThirdQuarter => "Third quarter"
    case WaningCrescent => "Waning crescent"
  }

  /** `Phase::from_storm_glass_io`: an exact, case-sensitive match. */
  function PhaseOf(text: string): (r: Result<Phase, MoonError>)
    ensures r.Err? ==> r.error == UnknownPhase(text)
  {
    match text
    case "New moon" => Ok(NewMoon)
    case "Waxing crescent" => Ok(WaxingCrescent)
    case "First quarter" => Ok(FirstQuarter)
    case "Waxing gibbous" => Ok(WaxingGibbous)
    case "Full moon" => Ok(FullMoon)
    case "Waning gibbous" => Ok(WaningGibbous)
    case "Third quarter" => Ok(ThirdQuarter)
    case "Waning crescent" => Ok(WaningCrescent)
    case _ => Err(UnknownPhase(text))
  }

  /** A text is read as a phase exactly when it is that phase's phrase. */
  lemma PhaseTable(text: string, p: Phase)
    ensures PhaseOf(text) == Ok(p) <==> text == PhaseText(p)
  {
  }

  /** The eight phrases are distinct, so every phase is read back from its own. */
  lemma PhaseRoundTrip(p: Phase)
    ensures PhaseOf(PhaseText(p)) == Ok(p)
  {
    PhaseTable(PhaseText(p), p);
  }

  /** `StormGlassData`: a timestamp and the phase's phrase. */
  datatype Datum = Datum(time: string, phaseText: string)

  /** `Moon`. */
  datatype MoonDay = MoonDay(phase: Phase)

  /** One pass of the loop: the time must parse, then the phrase must be known.
      The key is the local date at `offset`. */
  function DayEntry(offset: UtcOffset, d: Datum): (r: Result<(Date, MoonDay), MoonError>)
    ensures ParseOffsetDateTimeAnyLayout(d.time).None? ==> r == Err(BadTime(d.time))
    ensures ParseOffsetDateTimeAnyLayout(d.time).Some? && PhaseOf(d.phaseText).Err? ==> r == Err(UnknownPhase(d.phaseText))
    ensures r.Ok? <==> ParseOffsetDateTimeAnyLayout(d.time).Some? && PhaseOf(d.phaseText).Ok?
    ensures r.Ok? ==> r.value == (ToOffset(ParseOffsetDateTimeAnyLayout(d.time).value, offset).date,
      MoonDay(PhaseOf(d.phaseText).value))
  {
    match ParseOffsetDateTimeAnyLayout(d.time)
    case None => Err(BadTime(d.time))
    case Some(t) =>
      match PhaseOf(d.phaseText)
      case Err(e) => Err(e)
      case Ok(phase) => Ok((ToOffset(t, offset).date, MoonDay(phase)))
  }

  /** The loop body as a function of the datum. */
  function EntryAt(offset: UtcOffset): Datum -> Result<(Date, MoonDay), MoonError> {
    d => DayEntry(offset, d)
  }

  /** What `LunarCalendar::from_storm_glass_io` computes (without its
      `last_update` instant). */
  function Calendar(data: seq<Datum>, offset: UtcOffset): (r: Result<map<Date, MoonDay>, MoonError>)
    ensures r.Ok? <==> forall i :: 0 <= i < |data| ==> DayEntry(offset, data[i]).Ok?
  {
    EntriesOk(data, EntryAt(offset));
    Collect(data, EntryAt(offset))
  }

  /** The local date at `offset` of a datum's timestamp. */
  function LocalDate(offset: UtcOffset, d: Datum): Date
    requires ParseOffsetDateTimeAnyLayout(d.time).Some?
  {
    ToOffset(ParseOffsetDateTimeAnyLayout(d.time).value, offset).date
  }

  /** The calendar's dates are exactly the local dates of the timestamps. */
  lemma CalendarKeys(data: seq<Datum>, offset: UtcOffset)
    requires Calendar(data, offset).Ok?
    ensures forall i :: 0 <= i < |data| ==> ParseOffsetDateTimeAnyLayout(data[i].time).Some?
    ensures Calendar(data, offset).value.Keys == set i | 0 <= i < |data| :: LocalDate(offset, data[i])
  {
    var f := EntryAt(offset);
    CollectMap(data, f);
    var keys := set i | 0 <= i < |data| :: f(data[i]).value.0;
    var dates := set i | 0 <= i < |data| :: LocalDate(offset, data[i]);
    forall k | k in keys ensures k in dates {
      var i :| 0 <= i < |data| && f(data[i]).value.0 == k;
      assert LocalDate(offset, data[i]) == k;
    }
    forall k | k in dates ensures k in keys {
      var i :| 0 <= i < |data| && LocalDate(offset, data[i]) == k;
      assert f(data[i]).value.0 == k;
    }
  }

  /** A date holds the phase of the last datum falling on it. */
  lemma CalendarDay(data: seq<Datum>, offset: UtcOffset, i: nat)
    requires Calendar(data, offset).Ok? && i < |data|
    requires forall j :: i < j < |data| ==> DayEntry(offset, data[j]).value.0 != DayEntry(offset, data[i]).value.0
    ensures var d, cal := data[i], Calendar(data, offset).value;
      ParseOffsetDateTimeAnyLayout(d.time).Some? && PhaseOf(d.phaseText).Ok? &&
      LocalDate(offset, d) in cal && cal[LocalDate(offset, d)] == MoonDay(PhaseOf(d.phaseText).value)
  {
    var f := EntryAt(offset);
    var es := Entries(data, f).value;
    EntriesOk(data, f);
    InsertAllLastWins(map[], es, i);
  }

  /** The first datum that fails fails the whole conversion with its error. */
  lemma CalendarError(data: seq<Datum>, offset: UtcOffset)
    requires Calendar(data, offset).Err?
    ensures exists i ::
      0 <= i < |data| && DayEntry(offset, data[i]).Err? && Calendar(data, offset).error == DayEntry(offset, data[i]).error &&
      forall j :: 0 <= j < i ==> DayEntry(offset, data[j]).Ok?
  {
    CollectError(data, EntryAt(offset));
  }

  /** `LunarCalendar::from_storm_glass_io`: `insert` inside the loop, and a
      return on the first failing datum. */
  method FromStormGlass(data: seq<Datum>, offset: UtcOffset) returns (r: Result<map<Date, MoonDay>, MoonError>)
    ensures r == Calendar(data, offset)
  {
    ghost var f := EntryAt(offset);
    var calendar := map[];
    var i := 0;
    while i < |data|
      invariant i <= |data|
      invariant Entries(data[..i], f).Ok?
      invariant calendar == InsertAll(map[], Entries(data[..i], f).value)
    {
      EntriesSnoc(data, f, i);
      var t := ParseOffsetDateTimeAnyLayout(data[i].time);
      if t.None? {
        EntriesErrSticky(data, f, i + 1);
        return Err(BadTime(data[i].time));
      }
      var date := ToOffset(t.value, offset).date;
      var phase := PhaseOf(data[i].phaseText);
      if phase.Err? {
        EntriesErrSticky(data, f, i + 1);
        return Err(phase.error);
      }
      InsertAllSnoc(map[], Entries(data[..i], f).value, (date, MoonDay(phase.value)));
      calendar := calendar[date := MoonDay(phase.value)];
      i := i + 1;
    }
    assert data[..i] == data;
    r := Ok(calendar);
  }
}
