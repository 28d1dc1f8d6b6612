/** The ISO 8601 layouts the program parses with the `time` crate, one
    function per layout, each with the formatter of the same layout as its
    round-trip partner.

    `basic` is the layout without separators (`20240615T100000+1000`) that
    iCalendar uses; extended is `2024-06-15T10:00:00+10:00`. Years have four
    digits, times are at second precision, an offset is `Z`, `+HH` or `+HHMM`
    (`+HH:MM` in the extended layout). */
module Iso8601 {
  import opened Wrappers
  import opened Dates
  import opened OffsetDateTimes

  /** `PrimitiveDateTime`: a date and a wall-clock time with no offset. */
  datatype PrimitiveDateTime = PrimitiveDateTime(date: Date, time: SecondOfDay)

  predicate IsDigit(c: char) {
    '0' <= c <= '9'
  }

  predicate AllDigits(s: string) {
    forall i :: 0 <= i < |s| ==> IsDigit(s[i])
  }

  function Pow10(w: nat): (p: nat)
    ensures p >= 1
  {
    if w == 0 then 1 else 10 * Pow10(w - 1)
  }

  /** The value of a string of decimal digits. */
  function NatOf(s: string): nat
    requires AllDigits(s)
  {
    if s == [] then 0 else 10 * NatOf(s[..|s| - 1]) + (s[|s| - 1] as int - '0' as int)
  }

  /** `n` in exactly `w` decimal digits, zero-padded on the left. */
  function PadDigits(n: nat, w: nat): (s: string)
    requires n < Pow10(w)
    ensures |s| == w && AllDigits(s)
  {
    if w == 0 then [] else PadDigits(n / 10, w - 1) + [(n % 10 + '0' as int) as char]
  }

  lemma {:induction false} NatOfPadDigits(n: nat, w: nat)
    requires n < Pow10(w)
    ensures NatOf(PadDigits(n, w)) == n
  {
    if w > 0 {
      var s := PadDigits(n, w);
      assert s[..w - 1] == PadDigits(n / 10, w - 1);
      NatOfPadDigits(n / 10, w - 1);
    }
  }

  /** Two zero-padded digits, spelled out. */
  lemma TwoDigits(n: nat)
    requires n < 100
    ensures PadDigits(n, 2) == [(n / 10 + '0' as int) as char, (n % 10 + '0' as int) as char]
  {
    assert PadDigits(n / 10, 1) == PadDigits(n / 10 / 10, 0) + [(n / 10 % 10 + '0' as int) as char];
  }

  /** A fixed-width numeric field: all digits, of length `w`. */
  function Field(s: string, w: nat): (r: Option<nat>)
    ensures r.Some? <==> |s| == w && AllDigits(s)
  {
    if |s| == w && AllDigits(s) then Some(NatOf(s)) else None
  }

  /** A calendar date from its year, month and day, if one exists. */
  function MakeDate(y: nat, m: nat, d: nat): (r: Option<Date>)
    ensures r.Some? <==> 1 <= m <= 12 && 1 <= d <= DaysInMonth(y, m)
    ensures r.Some? ==> r.value == Ymd(y, m, d)
  {
    if 1 <= m <= 12 && 1 <= d <= DaysInMonth(y, m) then Some(Ymd(y, m, d)) else None
  }

  /** `YYYYMMDD`, or `YYYY-MM-DD` when `extended`. */
  function ParseDate(s: string, extended: bool): Option<Date> {
    var k := if extended then 1 else 0;
    if |s| != 8 + 2 * k || (extended && (s[4] != '-' || s[7] != '-')) then None
    else
      var y :- Field(s[..4], 4);
      var m :- Field(s[4 + k..6 + k], 2);
      var d :- Field(s[6 + 2 * k..], 2);
      MakeDate(y, m, d)
  }

  function FormatDate(d: Date, extended: bool): (s: string)
    requires 0 <= d.year <= 9999
  {
    var y, m, dd := PadDigits(d.year, 4), PadDigits(d.month, 2), PadDigits(d.day, 2);
    if extended then y + "-" + m + "-" + dd else y + m + dd
  }

  /** `HHMMSS`, or `HH:MM:SS` when `extended`, as seconds since midnight. */
  function ParseTime(s: string, extended: bool): Option<SecondOfDay> {
    var k := if extended then 1 else 0;
    if |s| != 6 + 2 * k || (extended && (s[2] != ':' || s[5] != ':')) then None
    else
      var h :- Field(s[..2], 2);
      var m :- Field(s[2 + k..4 + k], 2);
      var sec :- Field(s[4 + 2 * k..], 2);
      if h < 24 && m < 60 && sec < 60 then Some(h * 3600 + m * 60 + sec) else None
  }

  function FormatTime(t: SecondOfDay, extended: bool): string {
    var h, m, sec := PadDigits(t / 3600, 2), PadDigits(t % 3600 / 60, 2), PadDigits(t % 60, 2);
    if extended then h + ":" + m + ":" + sec else h + m + sec
  }

  /** The date, a `T`, then the time. */
  function ParsePrimitiveDateTime(s: string, extended: bool): Option<PrimitiveDateTime> {
    var n := if extended then 10 else 8;
    if |s| <= n || s[n] != 'T' then None
    else
      var d :- ParseDate(s[..n], extended);
      var t :- ParseTime(s[n + 1..], extended);
      Some(PrimitiveDateTime(d, t))
  }

  function FormatPrimitiveDateTime(p: PrimitiveDateTime, extended: bool): string
    requires 0 <= p.date.year <= 9999
  {
    FormatDate(p.date, extended) + "T" + FormatTime(p.time, extended)
  }

  /** `Z`, or a sign, two hour digits and optionally two minute digits (after
      a `:` when `extended`). */
  function ParseOffset(s: string, extended: bool): Option<UtcOffset> {
    if s == "Z" then Some(0)
    else if |s| < 3 || (s[0] != '+' && s[0] != '-') then None
    else
      var h :- Field(s[1..3], 2);
      var rest := s[3..];
      var m :-
        if rest == [] then Some(0)
        else if extended then (if rest[0] == ':' then Field(rest[1..], 2) else None)
        else Field(rest, 2);
      if h <= 25 && m <= 59 then Some(if s[0] == '-' then -(h * 3600 + m * 60) else h * 3600 + m * 60)
      else None
  }

  function FormatOffset(o: UtcOffset, extended: bool): string
    requires o % 60 == 0
  {
    if o == 0 then "Z"
    else
      var a := if o < 0 then -o else o;
      var sign, h, m := if o < 0 then '-' else '+', PadDigits(a / 3600, 2), PadDigits(a % 3600 / 60, 2);
      if extended then [sign] + h + ":" + m else [sign] + h + m
  }

  /** A date-time carrying its own offset. */
  function ParseOffsetDateTime(s: string, extended: bool): Option<OffsetDateTime> {
    var n := if extended then 19 else 15;
    if |s| < n then None
    else
      var p :- ParsePrimitiveDateTime(s[..n], extended);
      var o :- ParseOffset(s[n..], extended);
      Some(AssumeOffset(p.date, p.time, o))
  }

  function FormatOffsetDateTime(t: OffsetDateTime, extended: bool): string
    requires 0 <= t.date.year <= 9999 && t.offset % 60 == 0
  {
    FormatPrimitiveDateTime(PrimitiveDateTime(t.date, t.time), extended) + FormatOffset(t.offset, extended)
  }

  /** What `ParseDate` reads from a text of the right shape. */
  lemma ParseDateFields(s: string, extended: bool)
    requires var k := if extended then 1 else 0;
      |s| == 8 + 2 * k && (extended ==> s[4] == '-' && s[7] == '-')
      && AllDigits(s[..4]) && AllDigits(s[4 + k..6 + k]) && AllDigits(s[6 + 2 * k..])
    ensures var k := if extended then 1 else 0;
      ParseDate(s, extended) == MakeDate(NatOf(s[..4]), NatOf(s[4 + k..6 + k]), NatOf(s[6 + 2 * k..]))
  {
  }

  /** Where the fields of a formatted date sit. */
  lemma FormatDateFields(d: Date, extended: bool)
    requires 0 <= d.year <= 9999
    ensures var s, k := FormatDate(d, extended), if extended then 1 else 0;
      |s| == 8 + 2 * k && (extended ==> s[4] == '-' && s[7] == '-')
      && s[..4] == PadDigits(d.year, 4) && s[4 + k..6 + k] == PadDigits(d.month, 2)
      && s[6 + 2 * k..] == PadDigits(d.day, 2)
  {
  }

  lemma DateRoundTrip(d: Date, extended: bool)
    requires 0 <= d.year <= 9999
    ensures ParseDate(FormatDate(d, extended), extended) == Some(d)
  {
    FormatDateFields(d, extended);
    NatOfPadDigits(d.year, 4);
    NatOfPadDigits(d.month, 2);
    NatOfPadDigits(d.day, 2);
    ParseDateFields(FormatDate(d, extended), extended);
  }

  /** Hours, minutes and seconds of a second of the day. */
  lemma SplitSeconds(t: nat)
    ensures t == t / 3600 * 3600 + t % 3600 / 60 * 60 + t % 60
    ensures t % 3600 / 60 < 60 && t % 60 < 60
  {
    var h, r := t / 3600, t % 3600;
    assert t == 3600 * h + r;
    var m, sec := r / 60, r % 60;
    assert r == 60 * m + sec;
    assert sec == t % 60;
  }

  /** What `ParseTime` reads from a text of the right shape. */
  lemma ParseTimeFields(s: string, extended: bool)
    requires var k := if extended then 1 else 0;
      |s| == 6 + 2 * k && (extended ==> s[2] == ':' && s[5] == ':')
      && AllDigits(s[..2]) && AllDigits(s[2 + k..4 + k]) && AllDigits(s[4 + 2 * k..])
      && NatOf(s[..2]) < 24 && NatOf(s[2 + k..4 + k]) < 60 && NatOf(s[4 + 2 * k..]) < 60
    ensures var k := if extended then 1 else 0;
      ParseTime(s, extended) == Some(NatOf(s[..2]) * 3600 + NatOf(s[2 + k..4 + k]) * 60 + NatOf(s[4 + 2 * k..]))
  {
  }

  /** Where the fields of a formatted time sit. */
  lemma FormatTimeFields(t: SecondOfDay, extended: bool)
    ensures var s, k := FormatTime(t, extended), if extended then 1 else 0;
      |s| == 6 + 2 * k && (extended ==> s[2] == ':' && s[5] == ':')
      && s[..2] == PadDigits(t / 3600, 2) && s[2 + k..4 + k] == PadDigits(t % 3600 / 60, 2)
      && s[4 + 2 * k..] == PadDigits(t % 60, 2)
  {
  }

  lemma TimeRoundTrip(t: SecondOfDay, extended: bool)
    ensures ParseTime(FormatTime(t, extended), extended) == Some(t)
  {
    SplitSeconds(t);
    FormatTimeFields(t, extended);
    NatOfPadDigits(t / 3600, 2);
    NatOfPadDigits(t % 3600 / 60, 2);
    NatOfPadDigits(t % 60, 2);
    ParseTimeFields(FormatTime(t, extended), extended);
  }

  lemma PrimitiveDateTimeRoundTrip(p: PrimitiveDateTime, extended: bool)
    requires 0 <= p.date.year <= 9999
    ensures ParsePrimitiveDateTime(FormatPrimitiveDateTime(p, extended), extended) == Some(p)
  {
    var n := if extended then 10 else 8;
    var s := FormatPrimitiveDateTime(p, extended);
    assert s[..n] == FormatDate(p.date, extended);
    assert s[n + 1..] == FormatTime(p.time, extended);
    DateRoundTrip(p.date, extended);
    TimeRoundTrip(p.time, extended);
  }

  /** The hours and minutes of a whole-minute offset's magnitude. */
  lemma OffsetParts(o: UtcOffset)
    requires o % 60 == 0
    ensures var a := if o < 0 then -o else o;
      a / 3600 <= 25 && a % 3600 / 60 <= 59 && a / 3600 * 3600 + a % 3600 / 60 * 60 == a
  {
    var a := if o < 0 then -o else o;
    assert a % 60 == 0 by {
      var q := o / 60;
      assert o == 60 * q;
      assert a == 60 * (if o < 0 then -q else q);
    }
    SplitSeconds(a);
  }

  /** What `ParseOffset` reads from a signed text of the right shape. */
  lemma ParseOffsetFields(s: string, extended: bool)
    requires var k := if extended then 1 else 0;
      |s| == 5 + k && (s[0] == '+' || s[0] == '-') && (extended ==> s[3] == ':')
      && AllDigits(s[1..3]) && AllDigits(s[3 + k..]) && NatOf(s[1..3]) <= 25 && NatOf(s[3 + k..]) <= 59
    ensures var k := if extended then 1 else 0;
      var v := NatOf(s[1..3]) * 3600 + NatOf(s[3 + k..]) * 60;
      ParseOffset(s, extended) == Some(if s[0] == '-' then -v else v)
  {
    var k := if extended then 1 else 0;
    assert s != "Z";
    if extended {
      assert s[3..][1..] == s[4..];
    }
  }

  /** Where the fields of a formatted non-zero offset sit. */
  lemma FormatOffsetFields(o: UtcOffset, extended: bool)
    requires o % 60 == 0 && o != 0
    ensures var s, k := FormatOffset(o, extended), if extended then 1 else 0;
      var a := if o < 0 then -o else o;
      |s| == 5 + k && s[0] == (if o < 0 then '-' else '+') && (extended ==> s[3] == ':')
      && s[1..3] == PadDigits(a / 3600, 2) && s[3 + k..] == PadDigits(a % 3600 / 60, 2)
  {
  }

  /** The fields of a formatted non-zero offset read back as its magnitude. */
  lemma OffsetFieldValues(o: UtcOffset, extended: bool)
    requires o % 60 == 0 && o != 0
    ensures var s, k := FormatOffset(o, extended), if extended then 1 else 0;
      |s| == 5 + k && s[0] == (if o < 0 then '-' else '+') && (extended ==> s[3] == ':')
      && AllDigits(s[1..3]) && AllDigits(s[3 + k..]) && NatOf(s[1..3]) <= 25 && NatOf(s[3 + k..]) <= 59
      && NatOf(s[1..3]) * 3600 + NatOf(s[3 + k..]) * 60 == (if o < 0 then -o else o)
  {
    var a := if o < 0 then -o else o;
    OffsetParts(o);
    FormatOffsetFields(o, extended);
    NatOfPadDigits(a / 3600, 2);
    NatOfPadDigits(a % 3600 / 60, 2);
  }

  lemma OffsetRoundTrip(o: UtcOffset, extended: bool)
    requires o % 60 == 0
    ensures ParseOffset(FormatOffset(o, extended), extended) == Some(o)
  {
    if o != 0 {
      var s := FormatOffset(o, extended);
      OffsetFieldValues(o, extended);
      ParseOffsetFields(s, extended);
    }
  }

  /** Every reading with a four-digit year and a whole-minute offset is read
      back from its own text. */
  lemma OffsetDateTimeRoundTrip(t: OffsetDateTime, extended: bool)
    requires 0 <= t.date.year <= 9999 && t.offset % 60 == 0
    ensures ParseOffsetDateTime(FormatOffsetDateTime(t, extended), extended) == Some(t)
  {
    var n := if extended then 19 else 15;
    var p := PrimitiveDateTime(t.date, t.time);
    var s := FormatOffsetDateTime(t, extended);
    assert s[..n] == FormatPrimitiveDateTime(p, extended);
    assert s[n..] == FormatOffset(t.offset, extended);
    PrimitiveDateTimeRoundTrip(p, extended);
    OffsetRoundTrip(t.offset, extended);
  }

  /** The `time` crate's ISO 8601 parser reads a date in either layout. */
  function ParseDateAnyLayout(s: string): Option<Date> {
    if ParseDate(s, true).Some? then ParseDate(s, true) else ParseDate(s, false)
  }

  /** Either layout of a date is read back. */
  lemma DateAnyLayoutRoundTrip(d: Date, extended: bool)
    requires 0 <= d.year <= 9999
    ensures ParseDateAnyLayout(FormatDate(d, extended)) == Some(d)
  {
    DateRoundTrip(d, extended);
    FormatDateFields(d, extended);
  }

  /** The `time` crate's ISO 8601 parser reads a date-time without offset in
      either layout. */
  function ParsePrimitiveDateTimeAnyLayout(s: string): Option<PrimitiveDateTime> {
    if ParsePrimitiveDateTime(s, true).Some? then ParsePrimitiveDateTime(s, true) else ParsePrimitiveDateTime(s, false)
  }

  /** Either layout of a date-time without offset is read back. */
  lemma PrimitiveDateTimeAnyLayoutRoundTrip(p: PrimitiveDateTime, extended: bool)
    requires 0 <= p.date.year <= 9999
    ensures ParsePrimitiveDateTimeAnyLayout(FormatPrimitiveDateTime(p, extended)) == Some(p)
  {
    PrimitiveDateTimeRoundTrip(p, extended);
    if !extended {
      var s := FormatPrimitiveDateTime(p, false);
      var t := FormatTime(p.time, false);
      FormatDateFields(p.date, false);
      FormatTimeFields(p.time, false);
      assert s == FormatDate(p.date, false) + "T" + t;
      assert s[10] == t[1] == PadDigits(p.time / 3600, 2)[1];
      assert ParsePrimitiveDateTime(s, true).None?;
    }
  }

  /** The `time` crate's ISO 8601 parser reads a date-time with its offset in
      either layout. */
  function ParseOffsetDateTimeAnyLayout(s: string): Option<OffsetDateTime> {
    if ParseOffsetDateTime(s, true).Some? then ParseOffsetDateTime(s, true) else ParseOffsetDateTime(s, false)
  }

  /** Either layout of a date-time with a whole-minute offset is read back. */
  lemma OffsetDateTimeAnyLayoutRoundTrip(t: OffsetDateTime, extended: bool)
    requires 0 <= t.date.year <= 9999 && t.offset % 60 == 0
    ensures ParseOffsetDateTimeAnyLayout(FormatOffsetDateTime(t, extended)) == Some(t)
  {
    OffsetDateTimeRoundTrip(t, extended);
    if !extended {
      var s := FormatOffsetDateTime(t, false);
      FormatDateFields(t.date, false);
      assert s[..8] == FormatDate(t.date, false);
      assert s[8] == 'T';
      if |s| >= 19 {
        assert s[..19][..10] == s[..10];
        assert s[..10][8] == 'T';
        assert ParseDate(s[..10], true).None?;
      }
    }
  }
}
