/** Proleptic-Gregorian calendar dates with the `time` crate's calendar rules:
    validity, leap years, days in a month, the successor and predecessor days,
    weekdays and chronological order. Years are unbounded here; only
    `NextDayChecked` stops, as `next_day` does, at 9999-12-31. Days are counted from 0001-01-01, which
    is a Monday in the proleptic-Gregorian calendar. */
module Dates {
  import opened Wrappers

  datatype Ymd = Ymd(year: int, month: int, day: int)

  predicate IsLeapYear(y: int) {
    y % 4 == 0 && (y % 100 != 0 || y % 400 == 0)
  }

  /** `time::util::days_in_year_month`. */
  function DaysInMonth(y: int, m: int): (n: int)
    requires 1 <= m <= 12
    ensures 28 <= n <= 31
  {
    if m == 2 then (if IsLeapYear(y) then 29 else 28)
    else if m == 4 || m == 6 || m == 9 || m == 11 then 30
    else 31
  }

  predicate ValidYmd(d: Ymd) {
    1 <= d.month <= 12 && 1 <= d.day <= DaysInMonth(d.year, d.month)
  }

  /** A date that exists in the calendar. */
  type Date = d: Ymd | ValidYmd(d) witness Ymd(1970, 1, 1)

  function DaysInYear(y: int): int {
    if IsLeapYear(y) then 366 else 365
  }

  /** Days from 0001-01-01 to 1 January of year `y` (negative before year 1). */
  function DaysBeforeYear(y: int): int {
    var p := y - 1;
    365 * p + p / 4 - p / 100 + p / 400
  }

  /** Euclidean division by 4, 100 or 400 steps up by one exactly when the
      dividend reaches a multiple. */
  lemma DivStep(p: int, q: int)
    requires q == 4 || q == 100 || q == 400
    ensures (p + 1) / q - p / q == if (p + 1) % q == 0 then 1 else 0
  {
    if q == 4 {
      assert (p + 1) / 4 - p / 4 == if (p + 1) % 4 == 0 then 1 else 0;
    } else if q == 100 {
      assert (p + 1) / 100 - p / 100 == if (p + 1) % 100 == 0 then 1 else 0;
    } else {
      assert (p + 1) / 400 - p / 400 == if (p + 1) % 400 == 0 then 1 else 0;
    }
  }

  /** A multiple of `a * b` is one of `a`. */
  lemma MultipleOfFactor(y: int, a: int, b: int)
    requires a > 0 && b > 0 && y % (a * b) == 0
    ensures y % a == 0
  {
    var k := y / (a * b);
    assert y == (a * b) * k;
    assert y == a * (b * k);
  }

  /** A multiple of 400 is one of 100, and a multiple of 100 one of 4. */
  lemma Divisors(y: int)
    ensures y % 400 == 0 ==> y % 100 == 0
    ensures y % 100 == 0 ==> y % 4 == 0
  {
    if y % 400 == 0 {
      MultipleOfFactor(y, 100, 4);
    }
    if y % 100 == 0 {
      MultipleOfFactor(y, 4, 25);
    }
  }

  lemma DaysBeforeYearStep(y: int)
    ensures DaysBeforeYear(y + 1) == DaysBeforeYear(y) + DaysInYear(y)
  {
    var p := y - 1;
    assert p + 1 == y;
    DivStep(p, 4);
    DivStep(p, 100);
    DivStep(p, 400);
    Divisors(y);
    assert DaysBeforeYear(y + 1) - DaysBeforeYear(y)
      == 365 + ((p + 1) / 4 - p / 4) - ((p + 1) / 100 - p / 100) + ((p + 1) / 400 - p / 400);
  }

  lemma {:induction false} DaysBeforeYearMono(y1: int, y2: int)
    requires y1 <= y2
    ensures DaysBeforeYear(y1) <= DaysBeforeYear(y2)
    decreases y2 - y1
  {
    if y1 < y2 {
      DaysBeforeYearMono(y1, y2 - 1);
      DaysBeforeYearStep(y2 - 1);
    }
  }

  /** Days from 1 January of year `y` to the 1st of month `m` (`m == 13` is the next year). */
  function DaysBeforeMonth(y: int, m: int): (n: int)
    requires 1 <= m <= 13
    ensures 0 <= n
    decreases m
  {
    if m == 1 then 0 else DaysBeforeMonth(y, m - 1) + DaysInMonth(y, m - 1)
  }

  lemma {:induction false} DaysBeforeMonthMono(y: int, m1: int, m2: int)
    requires 1 <= m1 <= m2 <= 13
    ensures DaysBeforeMonth(y, m1) <= DaysBeforeMonth(y, m2)
    decreases m2 - m1
  {
    if m1 < m2 {
      DaysBeforeMonthMono(y, m1, m2 - 1);
    }
  }

  lemma YearLength(y: int)
    ensures DaysBeforeMonth(y, 13) == DaysInYear(y)
  {
    assert DaysBeforeMonth(y, 2) == 31;
    assert DaysBeforeMonth(y, 3) == 31 + DaysInMonth(y, 2);
    assert DaysBeforeMonth(y, 4) == 62 + DaysInMonth(y, 2);
    assert DaysBeforeMonth(y, 5) == 92 + DaysInMonth(y, 2);
    assert DaysBeforeMonth(y, 6) == 123 + DaysInMonth(y, 2);
    assert DaysBeforeMonth(y, 7) == 153 + DaysInMonth(y, 2);
    assert DaysBeforeMonth(y, 8) == 184 + DaysInMonth(y, 2);
    assert DaysBeforeMonth(y, 9) == 215 + DaysInMonth(y, 2);
    assert DaysBeforeMonth(y, 10) == 245 + DaysInMonth(y, 2);
    assert DaysBeforeMonth(y, 11) == 276 + DaysInMonth(y, 2);
    assert DaysBeforeMonth(y, 12) == 306 + DaysInMonth(y, 2);
  }

  /** The number of days from 0001-01-01 to `d`. */
  function DayNumber(d: Date): int {
    DaysBeforeYear(d.year) + DaysBeforeMonth(d.year, d.month) + d.day - 1
  }

  lemma DayOfYearBounds(d: Date)
    ensures 0 <= DayNumber(d) - DaysBeforeYear(d.year) < DaysInYear(d.year)
  {
    DaysBeforeMonthMono(d.year, d.month + 1, 13);
    YearLength(d.year);
  }

  /** Field-by-field order on (year, month, day). */
  predicate LexLess(a: Date, b: Date) {
    a.year < b.year
    || (a.year == b.year && a.month < b.month)
    || (a.year == b.year && a.month == b.month && a.day < b.day)
  }

  lemma DayNumberMonotone(a: Date, b: Date)
    requires LexLess(a, b)
    ensures DayNumber(a) < DayNumber(b)
  {
    if a.year < b.year {
      EarlierYear(a, b);
    } else if a.month < b.month {
      EarlierMonth(a, b);
    }
  }

  lemma EarlierYear(a: Date, b: Date)
    requires a.year < b.year
    ensures DayNumber(a) < DayNumber(b)
  {
    DayOfYearBounds(a);
    DayOfYearBounds(b);
    DaysBeforeYearStep(a.year);
    DaysBeforeYearMono(a.year + 1, b.year);
  }

  lemma EarlierMonth(a: Date, b: Date)
    requires a.year == b.year && a.month < b.month
    ensures DayNumber(a) < DayNumber(b)
  {
    var y := a.year;
    var before, after := DaysBeforeMonth(y, a.month), DaysBeforeMonth(y, b.month);
    assert DaysBeforeMonth(y, a.month + 1) == before + DaysInMonth(y, a.month);
    DaysBeforeMonthMono(y, a.month + 1, b.month);
    assert DayNumber(a) == DaysBeforeYear(y) + before + a.day - 1;
    assert DayNumber(b) == DaysBeforeYear(y) + after + b.day - 1;
  }

  /** Different dates have different day numbers. */
  lemma DayNumberInjective(a: Date, b: Date)
    requires DayNumber(a) == DayNumber(b)
    ensures a == b
  {
    if LexLess(a, b) {
      DayNumberMonotone(a, b);
      assert false;
    } else if LexLess(b, a) {
      DayNumberMonotone(b, a);
      assert false;
    }
  }

  /** Chronological order: the derived `Ord` of `time::Date`. */
  predicate DateLe(a: Date, b: Date) {
    DayNumber(a) <= DayNumber(b)
  }

  predicate DateLt(a: Date, b: Date) {
    DayNumber(a) < DayNumber(b)
  }

  /** Chronological order is the field-by-field order on (year, month, day). */
  lemma DateLeIsFieldOrder(a: Date, b: Date)
    ensures DateLe(a, b) <==> a == b || LexLess(a, b)
  {
    if LexLess(a, b) {
      DayNumberMonotone(a, b);
    } else if LexLess(b, a) {
      DayNumberMonotone(b, a);
    } else {
      assert a == b;
    }
  }

  /** 31 December is the last day before the next 1 January. */
  lemma YearTurn(y: int)
    ensures DayNumber(Ymd(y, 1, 1)) == DayNumber(Ymd(y - 1, 12, 31)) + 1
  {
    DaysBeforeYearStep(y - 1);
    YearLength(y - 1);
  }

  /** The last day of a month is the day before the 1st of the next. */
  lemma MonthTurn(y: int, m: int)
    requires 1 <= m < 12
    ensures DayNumber(Ymd(y, m + 1, 1)) == DayNumber(Ymd(y, m, DaysInMonth(y, m))) + 1
  {
  }

  /** Within a month, day numbers step with the day of the month. */
  lemma SameMonth(a: Date, b: Date)
    requires a.year == b.year && a.month == b.month
    ensures DayNumber(b) - DayNumber(a) == b.day - a.day
  {
  }

  /** `Date::next_day`, leaving the year range to `NextDayChecked`. */
  function NextDay(d: Date): (n: Date)
    ensures DayNumber(n) == DayNumber(d) + 1
  {
    if d.day < DaysInMonth(d.year, d.month) then
      var n: Date := Ymd(d.year, d.month, d.day + 1);
      SameMonth(d, n);
      n
    else if d.month < 12 then
      MonthTurn(d.year, d.month);
      Ymd(d.year, d.month + 1, 1)
    else
      YearTurn(d.year + 1);
      Ymd(d.year + 1, 1, 1)
  }

  /** `Date::previous_day`. */
  function PrevDay(d: Date): (p: Date)
    ensures DayNumber(p) == DayNumber(d) - 1
  {
    if d.day > 1 then
      var p: Date := Ymd(d.year, d.month, d.day - 1);
      SameMonth(p, d);
      p
    else if d.month > 1 then
      MonthTurn(d.year, d.month - 1);
      Ymd(d.year, d.month - 1, DaysInMonth(d.year, d.month - 1))
    else
      DecemberHas31(d.year - 1);
      YearTurn(d.year);
      Ymd(d.year - 1, 12, 31)
  }

  lemma DecemberHas31(y: int)
    ensures ValidYmd(Ymd(y, 12, 31))
  {
  }

  /** The `n`-th successor of `d`. */
  function AddDays(d: Date, n: nat): (r: Date)
    ensures DayNumber(r) == DayNumber(d) + n
    decreases n
  {
    if n == 0 then d else AddDays(NextDay(d), n - 1)
  }

  /** The `n`-th predecessor of `d`. */
  function SubDays(d: Date, n: nat): (r: Date)
    ensures DayNumber(r) == DayNumber(d) - n
    decreases n
  {
    if n == 0 then d else SubDays(PrevDay(d), n - 1)
  }

  /** `d + Duration::days(k)`. */
  function ShiftDays(d: Date, k: int): (r: Date)
    ensures DayNumber(r) == DayNumber(d) + k
  {
    if k >= 0 then AddDays(d, k) else SubDays(d, -k)
  }

  /** Every date at or after `s` is reached by stepping forward from `s`. */
  lemma AddDaysReaches(s: Date, d: Date)
    requires DateLe(s, d)
    ensures AddDays(s, DayNumber(d) - DayNumber(s)) == d
  {
    DayNumberInjective(AddDays(s, DayNumber(d) - DayNumber(s)), d);
  }

  lemma AddDaysCompose(d: Date, m: nat, n: nat)
    ensures AddDays(AddDays(d, m), n) == AddDays(d, m + n)
  {
    DayNumberInjective(AddDays(AddDays(d, m), n), AddDays(d, m + n));
  }

  /** The days of a month are its 1st stepped forward. */
  lemma AddDaysWithinMonth(d: Date, k: nat)
    requires d.day + k <= DaysInMonth(d.year, d.month)
    ensures AddDays(d, k) == Ymd(d.year, d.month, d.day + k)
  {
    var t: Date := Ymd(d.year, d.month, d.day + k);
    DayNumberInjective(AddDays(d, k), t);
  }

  datatype Weekday = Monday | Tuesday | Wednesday | Thursday | Friday | Saturday | Sunday {
    /** Days since Monday. */
    function Index(): (i: nat)
      ensures i < 7
    {
      match this
      case Monday => 0
      case Tuesday => 1
      case Wednesday => 2
      case Thursday => 3
      case Friday => 4
      case Saturday => 5
      case Sunday => 6
    }
  }

  function WeekdayAt(i: int): (w: Weekday)
    requires 0 <= i < 7
    ensures w.Index() == i
  {
    if i == 0 then Monday
    else if i == 1 then Tuesday
    else if i == 2 then Wednesday
    else if i == 3 then Thursday
    else if i == 4 then Friday
    else if i == 5 then Saturday
    else Sunday
  }

  /** `Date::weekday`: 0001-01-01 is a Monday and weekdays repeat every seven days. */
  function WeekdayOf(d: Date): Weekday {
    WeekdayAt(DayNumber(d) % 7)
  }

  /** The last date the `time` crate represents without its large-dates feature. */
  const MaxDate: Date := Ymd(9999, 12, 31)

  /** The day number of `MaxDate`. */
  const MaxDayNumber := 3652058

  lemma MaxDateDayNumber()
    ensures DayNumber(MaxDate) == MaxDayNumber
  {
    assert DaysBeforeYear(9999) == 3651694;
    assert DaysBeforeMonth(9999, 12) == 334;
  }

  /** `Date::next_day`, which gives `None` past the last representable date. */
  function NextDayChecked(d: Date): (r: Option<Date>)
    ensures r.Some? <==> DayNumber(d) < MaxDayNumber
    ensures r.Some? ==> DayNumber(r.value) == DayNumber(d) + 1
  {
    if DayNumber(d) < MaxDayNumber then Some(NextDay(d)) else None
  }

  /** The dates from `s` through `e`, in order: `successors(Some(s), next_day).take_while(|x| x <= e)`. */
  function DaysThrough(s: Date, e: Date): (r: seq<Date>)
    ensures |r| == if DateLe(s, e) then DayNumber(e) - DayNumber(s) + 1 else 0
    decreases DayNumber(e) - DayNumber(s)
  {
    if DateLe(s, e) then [s] + DaysThrough(NextDay(s), e) else []
  }

  /** The `i`-th element of the run is the `i`-th successor of its start. */
  lemma {:induction false} DaysThroughAt(s: Date, e: Date, i: nat)
    requires i < |DaysThrough(s, e)|
    ensures DaysThrough(s, e)[i] == AddDays(s, i)
    decreases i
  {
    if i > 0 {
      DaysThroughAt(NextDay(s), e, i - 1);
    }
  }

  /** A date is in the run exactly when it lies between its ends. */
  lemma DaysThroughContains(s: Date, e: Date, d: Date)
    ensures d in DaysThrough(s, e) <==> DateLe(s, d) && DateLe(d, e)
  {
    var r := DaysThrough(s, e);
    if d in r {
      var i :| 0 <= i < |r| && r[i] == d;
      DaysThroughAt(s, e, i);
    }
    if DateLe(s, d) && DateLe(d, e) {
      var i := DayNumber(d) - DayNumber(s);
      DaysThroughAt(s, e, i);
      AddDaysReaches(s, d);
    }
  }
}
