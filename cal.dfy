/** Events read from iCalendar data (RFC 5545). The `ical` crate's parse is
    taken as given: its output is a sequence of calendar blocks, each either a
    structural error or the property lists of its VEVENT components. */
module Cal {
  import opened Wrappers
  import opened Dates
  import opened OffsetDateTimes
  import opened Iso8601
  import opened StableSort

  /** A content line: its name, its value if any, and its parameters, each a
      name with its list of values. */
  datatype Property = Property(name: string, value: Option<string>, params: Option<seq<(string, seq<string>)>>)

  /** The property list of one VEVENT. */
  type Component = seq<Property>

  /** A calendar block as the parser yields it: its components, or the parser's message. */
  type Block = Result<seq<Component>, string>

  /** `parse_ical` fails with "failed to parse iCal" wrapped around the parser's message. */
  datatype IcalError = ParseFailure(cause: string)

  datatype Event = Event(summary: string, start: OffsetDateTime, end: OffsetDateTime)

  /** `Event::covers`: the local start date is not after `d` and the local end date not before it. */
  predicate Covers(e: Event, d: Date) {
    DateLe(e.start.date, d) && DateLe(d, e.end.date)
  }

  /** An event covers exactly the days met by walking from its start date, a day
      at a time, while the day is not after its end date. */
  lemma CoversIsDayWalk(e: Event, d: Date)
    ensures Covers(e, d) <==> d in DaysThrough(e.start.date, e.end.date)
  {
    DaysThroughContains(e.start.date, e.end.date, d);
  }

  /** `Iterator::find`: the index of the first element satisfying `p`. */
  function FirstIndex<T>(s: seq<T>, p: T -> bool): (r: Option<nat>)
    ensures r.Some? ==> r.value < |s| && p(s[r.value]) && forall j :: 0 <= j < r.value ==> !p(s[j])
    ensures r.None? ==> forall j :: 0 <= j < |s| ==> !p(s[j])
  {
    if s == [] then None
    else if p(s[0]) then Some(0)
    else
      var i :- FirstIndex(s[1..], p);
      Some(i + 1)
  }

  /** `i` is the position of the first property called `name`. */
  predicate FirstNamed(props: seq<Property>, name: string, i: int) {
    0 <= i < |props| && props[i].name == name && forall j :: 0 <= j < i ==> props[j].name != name
  }

  lemma FirstNamedUnique(props: seq<Property>, name: string, i: int, k: int)
    requires FirstNamed(props, name, i) && FirstNamed(props, name, k)
    ensures i == k
  {
  }

  /** `PropParser::find`: the first property whose name is exactly `name`. */
  function Find(props: seq<Property>, name: string): (r: Option<Property>)
    ensures r.None? <==> forall j :: 0 <= j < |props| ==> props[j].name != name
    ensures r.Some? ==> exists i :: FirstNamed(props, name, i) && props[i] == r.value
  {
    var i :- FirstIndex(props, (p: Property) => p.name == name);
    assert FirstNamed(props, name, i);
    Some(props[i])
  }

  /** `PropParser::parse`: `f` applied to the first property called `name`;
      `None` when there is no such property or `f` fails on it. */
  function Parse<T>(props: seq<Property>, name: string, f: Property -> Option<T>): (r: Option<T>)
    ensures r.Some? <==> exists i :: FirstNamed(props, name, i) && f(props[i]).Some?
    ensures forall i :: FirstNamed(props, name, i) ==> r == f(props[i])
  {
    match Find(props, name)
    case None => None
    case Some(p) =>
      var i :| FirstNamed(props, name, i) && props[i] == p;
      forall k | FirstNamed(props, name, k) ensures k == i {
        FirstNamedUnique(props, name, i, k);
      }
      f(p)
  }

  function ValueOf(p: Property): Option<string> {
    p.value
  }

  /** `PropParser::str`: the value of the first property called `name`. */
  function Str(props: seq<Property>, name: string): (r: Option<string>)
    ensures r.Some? <==> exists i :: FirstNamed(props, name, i) && props[i].value.Some?
    ensures forall i :: FirstNamed(props, name, i) ==> r == props[i].value
  {
    Parse(props, name, ValueOf)
  }

  /** `find_param`: the first value of the first parameter called `name`;
      `None` when the property has no parameters, none has that name, or
      its value list is empty. */
  function FindParam(p: Property, name: string): (r: Option<string>)
    ensures p.params.None? ==> r.None?
    ensures p.params.Some? ==> var ps := p.params.value;
      (r.Some? <==> exists i :: 0 <= i < |ps| && ps[i].0 == name && |ps[i].1| > 0 && forall j :: 0 <= j < i ==> ps[j].0 != name)
    ensures r.Some? ==> var ps := p.params.value;
      exists i :: 0 <= i < |ps| && ps[i].0 == name && |ps[i].1| > 0 && r.value == ps[i].1[0] && forall j :: 0 <= j < i ==> ps[j].0 != name
  {
    var ps :- p.params;
    var i :- FirstIndex(ps, (x: (string, seq<string>)) => x.0 == name);
    if |ps[i].1| == 0 then None else Some(ps[i].1[0])
  }

  /** The zone parameter: `TZID` when it yields a value, otherwise `VALUE`. */
  function ZoneParam(p: Property): (r: Option<string>)
    ensures FindParam(p, "TZID").Some? ==> r == FindParam(p, "TZID")
    ensures FindParam(p, "TZID").None? ==> r == FindParam(p, "VALUE")
  {
    match FindParam(p, "TZID")
    case Some(z) => Some(z)
    case None => FindParam(p, "VALUE")
  }

  const Brisbane := "Australia/Brisbane"
  const Sydney := "Australia/Sydney"

  /** Sydney's offset in seconds as the program fixes it: +11:00 in months 1-3
      and 10-12, +10:00 in months 4-9. */
  function SydneyOffset(month: int): (o: UtcOffset)
    ensures o == 39600 <==> month <= 3 || month >= 10
    ensures o == 36000 <==> 3 < month < 10
  {
    if month <= 3 || month >= 10 then 11 * 3600 else 10 * 3600
  }

  /** The date-time a DTSTART or DTEND value denotes, given the zone parameter. */
  function Resolve(val: string, zone: Option<string>): (r: Option<OffsetDateTime>)
    ensures zone == Some("DATE") ==> (r.Some? <==> ParseDateAnyLayout(val).Some?)
    ensures zone == Some("DATE") && r.Some? ==> r.value == OffsetDateTime(ParseDateAnyLayout(val).value, 0, 0)
    ensures zone == Some(Brisbane) ==> (r.Some? <==> ParsePrimitiveDateTimeAnyLayout(val).Some?)
    ensures zone == Some(Brisbane) && r.Some? ==>
      r.value.offset == 36000 && PrimitiveDateTime(r.value.date, r.value.time) == ParsePrimitiveDateTimeAnyLayout(val).value
    ensures zone == Some(Sydney) ==> (r.Some? <==> ParsePrimitiveDateTimeAnyLayout(val).Some?)
    ensures zone == Some(Sydney) && r.Some? ==>
      r.value.offset == SydneyOffset(r.value.date.month) &&
      PrimitiveDateTime(r.value.date, r.value.time) == ParsePrimitiveDateTimeAnyLayout(val).value
    ensures zone.Some? && zone.value !in {"DATE", Brisbane, Sydney} ==> r.None?
    ensures zone.None? ==> r == ParseOffsetDateTimeAnyLayout(val)
  {
    match zone
    case None => ParseOffsetDateTimeAnyLayout(val)
    case Some(id) =>
      if id == "DATE" then
        var d :- ParseDateAnyLayout(val);
        Some(AssumeOffset(d, 0, 0))
      else if id == Brisbane then
        var p :- ParsePrimitiveDateTimeAnyLayout(val);
        Some(AssumeOffset(p.date, p.time, 10 * 3600))
      else if id == Sydney then
        var p :- ParsePrimitiveDateTimeAnyLayout(val);
        Some(AssumeOffset(p.date, p.time, SydneyOffset(p.date.month)))
      else None
  }

  /** The conversion `PropParser::datetime` applies to the property it finds. */
  function ResolveProperty(p: Property): (r: Option<OffsetDateTime>)
    ensures p.value.None? ==> r.None?
    ensures p.value.Some? ==> r == Resolve(p.value.value, ZoneParam(p))
  {
    var val :- p.value;
    Resolve(val, ZoneParam(p))
  }

  /** `PropParser::datetime`: the first property called `name`, resolved. */
  function DateTime(props: seq<Property>, name: string): (r: Option<OffsetDateTime>)
    ensures (forall j :: 0 <= j < |props| ==> props[j].name != name) ==> r.None?
    ensures forall i :: FirstNamed(props, name, i) ==> r == ResolveProperty(props[i])
  {
    Parse(props, name, ResolveProperty)
  }

  /** `make_event`: SUMMARY, DTSTART and DTEND must all be present and readable;
      the summary is copied and both times are moved to `offset` keeping their instants. */
  function MakeEvent(props: Component, offset: UtcOffset): (r: Option<Event>)
    ensures r.Some? <==>
      Str(props, "SUMMARY").Some? && DateTime(props, "DTSTART").Some? && DateTime(props, "DTEND").Some?
    ensures r.Some? ==>
      r.value.summary == Str(props, "SUMMARY").value &&
      r.value.start.offset == offset && Instant(r.value.start) == Instant(DateTime(props, "DTSTART").value) &&
      r.value.end.offset == offset && Instant(r.value.end) == Instant(DateTime(props, "DTEND").value)
  {
    var summary :- Str(props, "SUMMARY");
    var start :- DateTime(props, "DTSTART");
    var end :- DateTime(props, "DTEND");
    Some(Event(summary, ToOffset(start, offset), ToOffset(end, offset)))
  }

  /** `Iterator::filter_map`: the `Some` results of `f`, in order. */
  function FilterMap<A, B>(s: seq<A>, f: A -> Option<B>): (r: seq<B>)
    ensures |r| <= |s|
  {
    if s == [] then []
    else
      var rest := FilterMap(s[..|s| - 1], f);
      match f(s[|s| - 1])
      case Some(b) => rest + [b]
      case None => rest
  }

  /** A value is kept exactly when `f` yields it for some element. */
  lemma {:induction false} FilterMapMembers<A, B>(s: seq<A>, f: A -> Option<B>, b: B)
    ensures b in FilterMap(s, f) <==> exists j :: 0 <= j < |s| && f(s[j]) == Some(b)
    decreases |s|
  {
    if s != [] {
      var init := s[..|s| - 1];
      FilterMapMembers(init, f, b);
      if b in FilterMap(init, f) {
        var j :| 0 <= j < |init| && f(init[j]) == Some(b);
        assert s[j] == init[j];
      }
      if j :| 0 <= j < |s| && f(s[j]) == Some(b) {
        if j < |init| {
          assert init[j] == s[j];
        }
      }
    }
  }

  /** The events that the components of one block make, in component order. */
  function Events(comps: seq<Component>, offset: UtcOffset): (r: seq<Event>)
    ensures forall e :: e in r <==> exists j :: 0 <= j < |comps| && MakeEvent(comps[j], offset) == Some(e)
  {
    var f := (c: Component) => MakeEvent(c, offset);
    forall e ensures e in FilterMap(comps, f) <==> exists j :: 0 <= j < |comps| && f(comps[j]) == Some(e) {
      FilterMapMembers(comps, f, e);
    }
    FilterMap(comps, f)
  }

  /** The events of every block, in block order. */
  function Gathered(blocks: seq<seq<Component>>, offset: UtcOffset): seq<Event> {
    if blocks == [] then []
    else Gathered(blocks[..|blocks| - 1], offset) + Events(blocks[|blocks| - 1], offset)
  }

  /** Every gathered event is expressed in the target offset. */
  lemma {:induction false} GatheredInOffset(blocks: seq<seq<Component>>, offset: UtcOffset)
    ensures forall e :: e in Gathered(blocks, offset) ==> e.start.offset == offset && e.end.offset == offset
    decreases |blocks|
  {
    if blocks != [] {
      GatheredInOffset(blocks[..|blocks| - 1], offset);
      var last := blocks[|blocks| - 1];
    }
  }

  /** The sort key of `parse_ical`: `OffsetDateTime` compares instants. */
  function StartKey(e: Event): int {
    Instant(e.start)
  }

  predicate IsParseError(b: Block) {
    b.Err?
  }

  /** The blocks' components, assuming none is an error. */
  function Contents(blocks: seq<Block>): (r: seq<seq<Component>>)
    requires forall i :: 0 <= i < |blocks| ==> blocks[i].Ok?
    ensures |r| == |blocks| && forall i :: 0 <= i < |blocks| ==> r[i] == blocks[i].value
  {
    if blocks == [] then [] else Contents(blocks[..|blocks| - 1]) + [blocks[|blocks| - 1].value]
  }

  /** The first error is at `i` when `i` is an error and no earlier block is. */
  lemma FirstErrorAt(blocks: seq<Block>, i: nat)
    requires i < |blocks| && blocks[i].Err?
    requires forall j :: 0 <= j < i ==> !IsParseError(blocks[j])
    ensures FirstIndex(blocks, IsParseError) == Some(i)
  {
    var f := FirstIndex(blocks, IsParseError);
    assert f.Some? && f.value <= i;
  }

  /** One more good block adds its events at the back. */
  lemma GatheredStep(blocks: seq<Block>, i: nat, offset: UtcOffset)
    requires i < |blocks| && forall j :: 0 <= j <= i ==> blocks[j].Ok?
    ensures Gathered(Contents(blocks[..i + 1]), offset) ==
      Gathered(Contents(blocks[..i]), offset) + Events(blocks[i].value, offset)
  {
    assert blocks[..i + 1][..i] == blocks[..i];
    assert Contents(blocks[..i + 1]) == Contents(blocks[..i]) + [blocks[i].value];
    assert Contents(blocks[..i + 1])[..i] == Contents(blocks[..i]);
  }

  /** The loop of `parse_ical` over the parsed blocks: the first block the
      parser fails on fails the whole call; otherwise the events of all blocks,
      in block and component order. */
  method GatherBlocks(blocks: seq<Block>, offset: UtcOffset) returns (r: Result<seq<Event>, IcalError>)
    ensures FirstIndex(blocks, IsParseError).Some? ==>
      r == Err(ParseFailure(blocks[FirstIndex(blocks, IsParseError).value].error))
    ensures FirstIndex(blocks, IsParseError).None? ==> r == Ok(Gathered(Contents(blocks), offset))
  {
    var evs: seq<Event> := [];
    var i := 0;
    while i < |blocks|
      invariant 0 <= i <= |blocks|
      invariant forall j :: 0 <= j < i ==> !IsParseError(blocks[j])
      invariant evs == Gathered(Contents(blocks[..i]), offset)
    {
      if blocks[i].Err? {
        FirstErrorAt(blocks, i);
        return Err(ParseFailure(blocks[i].error));
      }
      GatheredStep(blocks, i, offset);
      evs := evs + Events(blocks[i].value, offset);
      i := i + 1;
    }
    assert blocks[..i] == blocks;
    r := Ok(evs);
  }

  /** `evs.sort_by(|a, b| a.start.cmp(&b.start))`: a stable sort by start instant. */
  method SortByStart(evs: seq<Event>) returns (s: seq<Event>)
    ensures s == Sort(evs, StartKey)
  {
    var a := new Event[|evs|](k requires 0 <= k < |evs| => evs[k]);
    assert a[..] == evs;
    SortInPlace(a, StartKey);
    s := a[..];
  }

  /** `parse_ical`: the first block the parser fails on fails the whole call;
      otherwise the events of all blocks, in block and component order, stably
      sorted by start instant. */
  method ParseIcal(blocks: seq<Block>, offset: UtcOffset) returns (r: Result<seq<Event>, IcalError>)
    ensures FirstIndex(blocks, IsParseError).Some? ==>
      r == Err(ParseFailure(blocks[FirstIndex(blocks, IsParseError).value].error))
    ensures FirstIndex(blocks, IsParseError).None? ==>
      r == Ok(Sort(Gathered(Contents(blocks), offset), StartKey))
  {
    var gathered := GatherBlocks(blocks, offset);
    if gathered.Err? {
      return gathered;
    }
    var sorted := SortByStart(gathered.value);
    r := Ok(sorted);
  }

  /** The events in an order where no local start date precedes an earlier one. */
  predicate StartDatesInOrder(evs: seq<Event>) {
    forall i, j :: 0 <= i < j < |evs| ==> DateLe(evs[i].start.date, evs[j].start.date)
  }

  /** Events sorted by start instant, all in one offset, have their local start
      dates in order. */
  lemma SortedInOneOffset(s: seq<Event>, offset: UtcOffset)
    requires SortedBy(s, StartKey)
    requires forall e :: e in s ==> e.start.offset == offset
    ensures StartDatesInOrder(s)
  {
    forall i, j | 0 <= i < j < |s| ensures DateLe(s[i].start.date, s[j].start.date) {
      assert StartKey(s[i]) <= StartKey(s[j]);
      SameOffsetOrder(s[i].start, s[j].start);
    }
  }

  /** What `parse_ical` returns is a stable sort of the gathered events by start
      instant; since all of them are in one offset, their local start dates are
      in order too, which the calendar grid relies on. */
  lemma ParseIcalResult(blocks: seq<seq<Component>>, offset: UtcOffset)
    ensures SortedBy(Sort(Gathered(blocks, offset), StartKey), StartKey)
    ensures multiset(Sort(Gathered(blocks, offset), StartKey)) == multiset(Gathered(blocks, offset))
    ensures forall k :: WithKey(Sort(Gathered(blocks, offset), StartKey), StartKey, k) == WithKey(Gathered(blocks, offset), StartKey, k)
    ensures StartDatesInOrder(Sort(Gathered(blocks, offset), StartKey))
  {
    var g := Gathered(blocks, offset);
    var s := Sort(g, StartKey);
    SortFacts(g, StartKey);
    GatheredInOffset(blocks, offset);
    forall e | e in s ensures e.start.offset == offset {
      assert e in multiset(g);
    }
    SortedInOneOffset(s, offset);
  }

  /** The basic-layout text of a reading at 10:00 is read back as that reading. */
  lemma TenOClock(d: Date, text: string)
    requires 1000 <= d.year <= 9999 && text == FormatDate(d, false) + "T100000"
    ensures ParsePrimitiveDateTimeAnyLayout(text) == Some(PrimitiveDateTime(d, 36000))
  {
    var p := PrimitiveDateTime(d, 36000);
    assert FormatTime(36000, false) == "100000" by {
      assert 36000 / 3600 == 10 && 36000 % 3600 / 60 == 0 && 36000 % 60 == 0;
      TwoDigits(10);
      TwoDigits(0);
    }
    assert FormatPrimitiveDateTime(p, false) == FormatDate(d, false) + "T" + "100000";
    assert FormatDate(d, false) + "T" + "100000" == FormatDate(d, false) + ("T" + "100000");
    assert "T" + "100000" == "T100000";
    assert text == FormatPrimitiveDateTime(p, false);
    PrimitiveDateTimeAnyLayoutRoundTrip(p, false);
  }

  /** A basic-layout reading at 10:00 in one of the two known zones is taken
      at that zone's offset for the reading's month. */
  lemma TenOClockInZone(d: Date, zone: string, text: string)
    requires 1000 <= d.year <= 9999 && text == FormatDate(d, false) + "T100000"
    requires zone == Brisbane || zone == Sydney
    ensures Resolve(text, Some(zone)) ==
      Some(OffsetDateTime(d, 36000, if zone == Brisbane then 36000 else SydneyOffset(d.month)))
  {
    TenOClock(d, text);
  }

  /** The four digits of 2024. */
  lemma YearDigits()
    ensures PadDigits(2024, 4) == "2024"
  {
    assert PadDigits(0, 0) == "" && PadDigits(2, 1) == "2" && PadDigits(20, 2) == "20" && PadDigits(202, 3) == "202";
  }

  /** The texts of the dates the examples use. */
  lemma TextFacts()
    ensures FormatDate(Ymd(2024, 6, 15), false) == "20240615"
    ensures FormatDate(Ymd(2024, 1, 15), false) == "20240115"
    ensures FormatDate(Ymd(2024, 6, 15), true) == "2024-06-15"
  {
    YearDigits();
    TwoDigits(1);
    TwoDigits(6);
    TwoDigits(15);
  }

  /** 2024-06-15 10:00 read in Brisbane is at +10:00. */
  lemma BrisbaneExample()
    ensures Resolve("20240615T100000", Some(Brisbane)) == Some(OffsetDateTime(Ymd(2024, 6, 15), 36000, 36000))
  {
    TextFacts();
    assert FormatDate(Ymd(2024, 6, 15), false) + "T100000" == "20240615T100000";
    TenOClockInZone(Ymd(2024, 6, 15), Brisbane, "20240615T100000");
  }

  /** June lies in months 4-9, so Sydney is read at +10:00 then. */
  lemma SydneyJuneExample()
    ensures Resolve("20240615T100000", Some(Sydney)) == Some(OffsetDateTime(Ymd(2024, 6, 15), 36000, 36000))
  {
    TextFacts();
    assert FormatDate(Ymd(2024, 6, 15), false) + "T100000" == "20240615T100000";
    TenOClockInZone(Ymd(2024, 6, 15), Sydney, "20240615T100000");
  }

  /** In January Sydney is read at +11:00. */
  lemma SydneyJanuaryExample()
    ensures Resolve("20240115T100000", Some(Sydney)) == Some(OffsetDateTime(Ymd(2024, 1, 15), 36000, 39600))
  {
    TextFacts();
    assert FormatDate(Ymd(2024, 1, 15), false) + "T100000" == "20240115T100000";
    TenOClockInZone(Ymd(2024, 1, 15), Sydney, "20240115T100000");
  }

  /** A bare date is midnight UTC, in the basic layout iCalendar uses and in
      the extended one. */
  lemma DateValueExample()
    ensures Resolve("20240615", Some("DATE")) == Some(OffsetDateTime(Ymd(2024, 6, 15), 0, 0))
    ensures Resolve("2024-06-15", Some("DATE")) == Some(OffsetDateTime(Ymd(2024, 6, 15), 0, 0))
  {
    var d := Ymd(2024, 6, 15);
    TextFacts();
    DateAnyLayoutRoundTrip(d, false);
    DateAnyLayoutRoundTrip(d, true);
  }

  /** Midnight UTC seen from +10:00 is 10:00 the same day. */
  lemma MidnightUtcInBrisbane()
    ensures ToOffset(OffsetDateTime(Ymd(2024, 6, 15), 0, 0), 36000) == OffsetDateTime(Ymd(2024, 6, 15), 36000, 36000)
  {
    ToOffsetUnique(OffsetDateTime(Ymd(2024, 6, 15), 0, 0), 36000, OffsetDateTime(Ymd(2024, 6, 15), 36000, 36000));
  }
}
