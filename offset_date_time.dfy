/** `time::OffsetDateTime` at second precision: a local date, the seconds
    since local midnight and a fixed UTC offset. Equality and order of the
    `time` crate compare the UTC instant, here `Instant`. */
module OffsetDateTimes {
  import opened Dates

  const SecondsPerDay := 86400

  /** The widest offset `UtcOffset` accepts: 25:59:59 either side of UTC. */
  const MaxOffsetSeconds := 25 * 3600 + 59 * 60 + 59

  type SecondOfDay = s: int | 0 <= s < 86400

  type UtcOffset = o: int | -MaxOffsetSeconds <= o <= MaxOffsetSeconds

  datatype OffsetDateTime = OffsetDateTime(date: Date, time: SecondOfDay, offset: UtcOffset)

  /** Seconds since 0001-01-01 00:00 UTC. */
  function Instant(t: OffsetDateTime): int {
    DayNumber(t.date) * SecondsPerDay + t.time - t.offset
  }

  /** `PrimitiveDateTime::assume_offset`: the wall-clock reading taken to be in `offset`. */
  function AssumeOffset(date: Date, time: SecondOfDay, offset: UtcOffset): OffsetDateTime {
    OffsetDateTime(date, time, offset)
  }

  /** `OffsetDateTime::to_offset`: the same instant seen from another offset. */
  function ToOffset(t: OffsetDateTime, offset: UtcOffset): (r: OffsetDateTime)
    ensures r.offset == offset
    ensures Instant(r) == Instant(t)
  {
    var local := t.time + (offset - t.offset);
    OffsetDateTime(ShiftDays(t.date, local / SecondsPerDay), local % SecondsPerDay, offset)
  }

  /** The offset and the instant fix the local date and time. */
  lemma InstantDeterminesLocal(a: OffsetDateTime, b: OffsetDateTime)
    requires a.offset == b.offset && Instant(a) == Instant(b)
    ensures a == b
  {
    assert DayNumber(a.date) == DayNumber(b.date);
    DayNumberInjective(a.date, b.date);
  }

  /** `to_offset` gives the one reading in the target offset that names the
      same instant, and converting twice is converting once. */
  lemma ToOffsetUnique(t: OffsetDateTime, offset: UtcOffset, r: OffsetDateTime)
    requires r.offset == offset && Instant(r) == Instant(t)
    ensures ToOffset(t, offset) == r
    ensures ToOffset(ToOffset(t, offset), offset) == ToOffset(t, offset)
  {
    InstantDeterminesLocal(ToOffset(t, offset), r);
    InstantDeterminesLocal(ToOffset(ToOffset(t, offset), offset), ToOffset(t, offset));
  }

  /** Readings in one offset are ordered by instant exactly as their local dates
      and times are; in particular an earlier instant never has a later local date. */
  lemma SameOffsetOrder(a: OffsetDateTime, b: OffsetDateTime)
    requires a.offset == b.offset
    ensures Instant(a) <= Instant(b) ==> DateLe(a.date, b.date)
    ensures DateLt(a.date, b.date) ==> Instant(a) < Instant(b)
  {
  }
}
