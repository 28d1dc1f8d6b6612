// Weather from the Open-Meteo payload: the current observation and a forecast
// keyed by date. The WMO weather interpretation codes Open-Meteo reports are
// read through a closed table.

module Weather {
  import opened Wrappers
  import opened Dates
  import opened Iso8601
  import opened KeyedMaps

  /** `Code` (the variant names are the source's, spelling included). */
  datatype Code = ClearSky | MainlyClear | PartlyCloudy | Overcast | Fog | Drizzle | Rain | Snow | Thuderstorm

  type U32 = x: int | 0 <= x < 0x1_0000_0000

  /** An `f32` reading. It is only ever copied, so its bits stand for it. */
  datatype F32 = F32(bits: bv32)

  /** `Ob`: one observation. */
  datatype Ob = Ob(code: Code, temperature: Option<F32>, humidity: Option<F32>, precipitationProb: Option<F32>)

  /** The diagnostics the conversion can fail with. */
  datatype WeatherError =
    | UnknownCode(code: U32)  // "weather code {} is not handled"
    | NoCode(date: Date)      // "no weather code for {date}"
    | BadDate(text: string)   // "date value: {date}"

  /** `OpenMeteoCurrent`. */
  datatype Current = Current(temperature: F32, humidity: F32, code: U32)

  /** `OpenMeteoDaily`: four parallel columns. */
  datatype Daily = Daily(time: seq<string>, code: seq<Option<U32>>, temperatureMax: seq<Option<F32>>,
                         precipitationMax: seq<Option<F32>>)

  datatype Payload = Payload(current: Current, daily: Daily)

  /** `Weather` without its `last_update` instant. */
  datatype Forecast = Forecast(current: Ob, forecast: map<Date, Ob>)

  /** `Code::from_open_meteo`. */
  function CodeOf(code: U32): (r: Result<Code, WeatherError>)
    ensures r.Err? ==> r.error == UnknownCode(code)
  {
    match code
    case 0 => Ok(ClearSky)
    case 1 => Ok(MainlyClear)
    case 2 => Ok(PartlyCloudy)
    case 3 => Ok(Overcast)
    case 45 | 48 => Ok(Fog)
    case 51 | 53 | 55 | 56 | 57 => Ok(Drizzle)
    case 61 | 63 | 65 | 66 | 67 | 80 | 81 | 82 => Ok(Rain)
    case 71 | 73 | 75 | 77 | 85 | 86 => Ok(Snow)
    case 95 | 96 | 99 => Ok(Thuderstorm)
    case _ => Err(UnknownCode(code))
  }

  /** The WMO codes each kind of weather stands for. */
  function WmoCodes(c: Code): set<int> {
    match c
    case ClearSky => {0}
    case MainlyClear => {1}
    case PartlyCloudy => {2}
    case Overcast => {3}
    case Fog => {45, 48}
    case Drizzle => {51, 53, 55, 56, 57}
    case Rain => {61, 63, 65, 66, 67, 80, 81, 82}
    case Snow => {71, 73, 75, 77, 85, 86}
    case Thuderstorm => {95, 96, 99}
  }

  /** The codes the table knows. */
  const KnownCodes: set<int> := {0, 1, 2, 3, 45, 48, 51, 53, 55, 56, 57, 61, 63, 65, 66, 67, 80, 81, 82,
                                 71, 73, 75, 77, 85, 86, 95, 96, 99}

  /** The table reads a code as `c` exactly when `c` stands for it. */
  lemma CodeTable(x: U32, c: Code)
    ensures CodeOf(x) == Ok(c) <==> x in WmoCodes(c)
  {
  }

  /** Every known code is read, every other one is an error. */
  lemma CodeKnown(x: U32)
    ensures CodeOf(x).Ok? <==> x in KnownCodes
    ensures CodeOf(x).Err? <==> forall c: Code :: x !in WmoCodes(c)
  {
    if CodeOf(x).Ok? {
      CodeTable(x, CodeOf(x).value);
    }
  }

  /** One day of the four columns zipped together. */
  datatype DailyRow = DailyRow(time: string, code: Option<U32>, temperature: Option<F32>, precipitationProb: Option<F32>)

  function Min(a: nat, b: nat): nat {
    if a <= b then a else b
  }

  /** `zip` of the four columns: as many rows as the shortest column. */
  function Rows(d: Daily): (r: seq<DailyRow>)
    ensures |r| <= |d.time| && |r| <= |d.code| && |r| <= |d.temperatureMax| && |r| <= |d.precipitationMax|
    ensures |r| == |d.time| || |r| == |d.code| || |r| == |d.temperatureMax| || |r| == |d.precipitationMax|
    ensures forall i :: 0 <= i < |r| ==>
      r[i].time == d.time[i] && r[i].code == d.code[i] &&
      r[i].temperature == d.temperatureMax[i] && r[i].precipitationProb == d.precipitationMax[i]
  {
    var n := Min(Min(Min(|d.time|, |d.code|), |d.temperatureMax|), |d.precipitationMax|);
    seq(n, i requires 0 <= i < n => DailyRow(d.time[i], d.code[i], d.temperatureMax[i], d.precipitationMax[i]))
  }

  /** One pass of the forecast loop: the date must parse, then the code must be
      present and known. */
  function DayEntry(row: DailyRow): (r: Result<(Date, Ob), WeatherError>)
    ensures ParseDateAnyLayout(row.time).None? ==> r == Err(BadDate(row.time))
    ensures ParseDateAnyLayout(row.time).Some? && row.code.None? ==> r == Err(NoCode(ParseDateAnyLayout(row.time).value))
    ensures ParseDateAnyLayout(row.time).Some? && row.code.Some? && CodeOf(row.code.value).Err? ==>
      r == Err(UnknownCode(row.code.value))
    ensures r.Ok? <==> ParseDateAnyLayout(row.time).Some? && row.code.Some? && CodeOf(row.code.value).Ok?
    ensures r.Ok? ==> r.value == (ParseDateAnyLayout(row.time).value,
      Ob(CodeOf(row.code.value).value, row.temperature, None, row.precipitationProb))
  {
    match ParseDateAnyLayout(row.time)
    case None => Err(BadDate(row.time))
    case Some(date) =>
      match row.code
      case None => Err(NoCode(date))
      case Some(x) =>
        match CodeOf(x)
        case Err(e) => Err(e)
        case Ok(code) => Ok((date, Ob(code, row.temperature, None, row.precipitationProb)))
  }

  /** What `Weather::from_open_meteo` computes: the current observation's code
      is checked first, then each day in order. */
  function Converted(p: Payload): (r: Result<Forecast, WeatherError>)
    ensures CodeOf(p.current.code).Err? ==> r == Err(UnknownCode(p.current.code))
    ensures r.Ok? <==> CodeOf(p.current.code).Ok? && Collect(Rows(p.daily), DayEntry).Ok?
    ensures r.Ok? ==>
      r.value.current == Ob(CodeOf(p.current.code).value, Some(p.current.temperature), Some(p.current.humidity), None)
  {
    var code :- CodeOf(p.current.code);
    var current := Ob(code, Some(p.current.temperature), Some(p.current.humidity), None);
    var forecast :- Collect(Rows(p.daily), DayEntry);
    Ok(Forecast(current, forecast))
  }

  /** Every day converted, and the forecast holds exactly the parsed dates. */
  lemma ForecastKeys(p: Payload)
    requires Converted(p).Ok?
    ensures var rows := Rows(p.daily);
      forall i :: 0 <= i < |rows| ==> DayEntry(rows[i]).Ok? && ParseDateAnyLayout(rows[i].time).Some?
    ensures var rows := Rows(p.daily);
      Converted(p).value.forecast.Keys == set i | 0 <= i < |rows| :: ParseDateAnyLayout(rows[i].time).value
  {
    var rows := Rows(p.daily);
    CollectMap(rows, DayEntry);
    assert (set i | 0 <= i < |rows| :: DayEntry(rows[i]).value.0) ==
      set i | 0 <= i < |rows| :: ParseDateAnyLayout(rows[i].time).value;
  }

  /** A date holds the observation of its last row: no humidity, and the row's
      code, temperature and precipitation probability. */
  lemma ForecastDay(p: Payload, i: nat)
    requires Converted(p).Ok? && i < |Rows(p.daily)|
    requires var rows := Rows(p.daily);
      forall j :: i < j < |rows| ==> ParseDateAnyLayout(rows[j].time) != ParseDateAnyLayout(rows[i].time)
    ensures var row, fc := Rows(p.daily)[i], Converted(p).value.forecast;
      DayEntry(row).Ok? && ParseDateAnyLayout(row.time).value in fc &&
      fc[ParseDateAnyLayout(row.time).value] == Ob(CodeOf(row.code.value).value, row.temperature, None, row.precipitationProb)
  {
    var rows := Rows(p.daily);
    var es := Entries(rows, DayEntry).value;
    EntriesOk(rows, DayEntry);
    forall j | i < j < |es| ensures es[j].0 != es[i].0 {
      assert ParseDateAnyLayout(rows[j].time) != ParseDateAnyLayout(rows[i].time);
    }
    InsertAllLastWins(map[], es, i);
  }

  /** A failing day fails the whole conversion with that day's error, and it
      is the first failing day. */
  lemma ForecastError(p: Payload)
    requires CodeOf(p.current.code).Ok? && Converted(p).Err?
    ensures var rows := Rows(p.daily);
      exists i :: 0 <= i < |rows| && DayEntry(rows[i]).Err? && Converted(p).error == DayEntry(rows[i]).error &&
        forall j :: 0 <= j < i ==> DayEntry(rows[j]).Ok?
  {
    CollectError(Rows(p.daily), DayEntry);
  }

  /** `Weather::from_open_meteo`: the map is filled by `insert` inside the loop,
      and the loop returns on the first failing day. */
  method FromOpenMeteo(p: Payload) returns (r: Result<Forecast, WeatherError>)
    ensures r == Converted(p)
  {
    var currentCode := CodeOf(p.current.code);
    if currentCode.Err? {
      return Err(currentCode.error);
    }
    var current := Ob(currentCode.value, Some(p.current.temperature), Some(p.current.humidity), None);
    var d := p.daily;
    var n := Min(Min(Min(|d.time|, |d.code|), |d.temperatureMax|), |d.precipitationMax|);
    ghost var rows := Rows(d);
    var forecast := map[];
    var i := 0;
    while i < n
      invariant i <= n == |rows|
      invariant Entries(rows[..i], DayEntry).Ok?
      invariant forecast == InsertAll(map[], Entries(rows[..i], DayEntry).value)
    {
      var row := DailyRow(d.time[i], d.code[i], d.temperatureMax[i], d.precipitationMax[i]);
      assert row == rows[i];
      EntriesSnoc(rows, DayEntry, i);
      var date := ParseDateAnyLayout(row.time);
      if date.None? {
        EntriesErrSticky(rows, DayEntry, i + 1);
        return Err(BadDate(row.time));
      }
      if row.code.None? {
        EntriesErrSticky(rows, DayEntry, i + 1);
        return Err(NoCode(date.value));
      }
      var code := CodeOf(row.code.value);
      if code.Err? {
        EntriesErrSticky(rows, DayEntry, i + 1);
        return Err(code.error);
      }
      var ob := Ob(code.value, row.temperature, None, row.precipitationProb);
      InsertAllSnoc(map[], Entries(rows[..i], DayEntry).value, (date.value, ob));
      forecast := forecast[date.value := ob];
      i := i + 1;
    }
    assert rows[..i] == rows;
    r := Ok(Forecast(current, forecast));
  }
}
