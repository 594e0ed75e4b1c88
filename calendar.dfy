/**
 * Naive date-times in the proleptic Gregorian calendar, as Python's
 * `datetime` represents them: years 1 to 9999, microsecond resolution.
 * Every date-time is mapped to an absolute count of microseconds since
 * 0001-01-01 00:00:00 (days before the year in closed form, as CPython
 * computes it), so that comparison and adding a duration are exact integer
 * operations; `FromMicros` inverts the mapping.
 */
module Calendar {
  import opened Optional

  const MaxYear: int := 9999
  const MicrosPerSecond: int := 1_000_000
  const SecondsPerDay: int := 86_400
  const MicrosPerDay: int := 86_400_000_000
  /** Number of days from 0001-01-01 to 10000-01-01, the end of the range. */
  const DaysLimit: int := 3_652_059
  /** One past the last representable instant, 9999-12-31 23:59:59.999999. */
  const MicrosLimit: int := DaysLimit * MicrosPerDay

  datatype Date = Date(year: int, month: int, day: int)
  datatype Time = Time(hour: int, minute: int, second: int, microsecond: int)
  datatype DateTime = DateTime(date: Date, time: Time)

  predicate IsLeap(y: int) {
    y % 4 == 0 && (y % 100 != 0 || y % 400 == 0)
  }

  function DaysInYear(y: int): int {
    if IsLeap(y) then 366 else 365
  }

  function DaysInMonth(y: int, m: int): (n: int)
    requires 1 <= m <= 12
    ensures 28 <= n <= 31
  {
    if m == 2 then (if IsLeap(y) then 29 else 28)
    else if m == 4 || m == 6 || m == 9 || m == 11 then 30
    else 31
  }

  /** A calendar date with no upper bound on the year. */
  predicate CivilDate(d: Date) {
    1 <= d.year && 1 <= d.month <= 12 && 1 <= d.day <= DaysInMonth(d.year, d.month)
  }

  /** A date Python's `date` accepts. */
  predicate ValidDate(d: Date) {
    CivilDate(d) && d.year <= MaxYear
  }

  /** A time of day Python's `time` accepts. */
  predicate ValidTime(t: Time) {
    0 <= t.hour < 24 && 0 <= t.minute < 60 && 0 <= t.second < 60
    && 0 <= t.microsecond < MicrosPerSecond
  }

  predicate Valid(dt: DateTime) {
    ValidDate(dt.date) && ValidTime(dt.time)
  }

  /** Days from 0001-01-01 to January 1st of year `y`. */
  function DaysBeforeYear(y: int): int
    requires y >= 1
  {
    var p := y - 1;
    p * 365 + p / 4 - p / 100 + p / 400
  }

  /** Days from January 1st to the first day of month `m` of year `y`. */
  function DaysBeforeMonth(y: int, m: int): int
    requires 1 <= m <= 13
  {
    if m == 1 then 0 else DaysBeforeMonth(y, m - 1) + DaysInMonth(y, m - 1)
  }

  /** The day number of `d`: 0 for 0001-01-01 (Python's `toordinal() - 1`). */
  function DayIndex(d: Date): int
    requires CivilDate(d)
  {
    DaysBeforeYear(d.year) + DaysBeforeMonth(d.year, d.month) + d.day - 1
  }

  function SecondOfDay(t: Time): int {
    t.hour * 3600 + t.minute * 60 + t.second
  }

  /** Microseconds since 0001-01-01 00:00:00. */
  function ToMicros(dt: DateTime): (t: int)
    requires Valid(dt)
    ensures 0 <= t < MicrosLimit
  {
    DayIndexBounds(dt.date);
    (DayIndex(dt.date) * SecondsPerDay + SecondOfDay(dt.time)) * MicrosPerSecond + dt.time.microsecond
  }

  // ---------------------------------------------------------------------
  // Facts about the year and month tables

  lemma DaysBeforeYearStep(y: int)
    requires y >= 1
    ensures DaysBeforeYear(y + 1) == DaysBeforeYear(y) + DaysInYear(y)
  {
    MultiplesStep(y, 4);
    MultiplesStep(y, 100);
    MultiplesStep(y, 400);
    MultiplesNest(y);
  }

  /** A multiple of 400 is one of 100, and a multiple of 100 is one of 4. */
  lemma MultiplesNest(y: nat)
    ensures y % 400 == 0 ==> y % 100 == 0
    ensures y % 100 == 0 ==> y % 4 == 0
  {
    if y % 400 == 0 {
      MultipleOf(y, 100, 4 * (y / 400));
    }
    if y % 100 == 0 {
      MultipleOf(y, 4, 25 * (y / 100));
    }
  }

  lemma MultipleOf(y: nat, k: nat, m: nat)
    requires (k == 4 || k == 100) && y == k * m
    ensures y % k == 0
  {
    if k == 4 {
      assert y == 4 * m;
    } else {
      assert y == 100 * m;
    }
  }

  /** Counting the multiples of `k` up to `y`: one more than up to `y - 1` exactly when `y` is one. */
  lemma MultiplesStep(y: nat, k: nat)
    requires y >= 1 && (k == 4 || k == 100 || k == 400)
    ensures y / k == (y - 1) / k + (if y % k == 0 then 1 else 0)
  {
    var p := y - 1;
    if k == 4 {
      assert p == p / 4 * 4 + p % 4;
    } else if k == 100 {
      assert p == p / 100 * 100 + p % 100;
    } else {
      assert p == p / 400 * 400 + p % 400;
    }
  }

  lemma {:induction false} DaysBeforeYearMonotone(a: int, b: int)
    requires 1 <= a <= b
    ensures DaysBeforeYear(a) + (b - a) * 365 <= DaysBeforeYear(b)
    decreases b - a
  {
    if a < b {
      DaysBeforeYearMonotone(a, b - 1);
      DaysBeforeYearStep(b - 1);
    }
  }

  lemma DaysBeforeMonthFullYear(y: int)
    ensures DaysBeforeMonth(y, 13) == DaysInYear(y)
  {
    var leap := if IsLeap(y) then 1 else 0;
    assert DaysBeforeMonth(y, 2) == 31;
    assert DaysBeforeMonth(y, 3) == 59 + leap;
    assert DaysBeforeMonth(y, 4) == 90 + leap;
    assert DaysBeforeMonth(y, 5) == 120 + leap;
    assert DaysBeforeMonth(y, 6) == 151 + leap;
    assert DaysBeforeMonth(y, 7) == 181 + leap;
    assert DaysBeforeMonth(y, 8) == 212 + leap;
    assert DaysBeforeMonth(y, 9) == 243 + leap;
    assert DaysBeforeMonth(y, 10) == 273 + leap;
    assert DaysBeforeMonth(y, 11) == 304 + leap;
    assert DaysBeforeMonth(y, 12) == 334 + leap;
  }

  lemma {:induction false} DaysBeforeMonthMonotone(y: int, a: int, b: int)
    requires 1 <= a <= b <= 13
    ensures DaysBeforeMonth(y, a) + (b - a) * 28 <= DaysBeforeMonth(y, b)
    decreases b - a
  {
    if a < b {
      DaysBeforeMonthMonotone(y, a, b - 1);
    }
  }

  /** A date's day number lies inside its own year. */
  lemma DayIndexInYear(d: Date)
    requires CivilDate(d)
    ensures DaysBeforeYear(d.year) <= DayIndex(d) < DaysBeforeYear(d.year + 1)
  {
    DaysBeforeMonthMonotone(d.year, 1, d.month);
    DaysBeforeMonthMonotone(d.year, d.month + 1, 13);
    DaysBeforeMonthFullYear(d.year);
    DaysBeforeYearStep(d.year);
  }

  lemma DayIndexBounds(d: Date)
    requires ValidDate(d)
    ensures 0 <= DayIndex(d) < DaysLimit
  {
    DayIndexInYear(d);
    DaysBeforeYearMonotone(d.year + 1, MaxYear + 1);
    DaysBeforeYearMonotone(1, d.year);
  }

  // ---------------------------------------------------------------------
  // Order and injectivity

  /** Python compares date-times field by field, most significant first. */
  predicate LexBefore(a: DateTime, b: DateTime) {
    var x := a.date;
    var y := b.date;
    var s := a.time;
    var t := b.time;
    x.year < y.year
    || (x.year == y.year && x.month < y.month)
    || (x.year == y.year && x.month == y.month && x.day < y.day)
    || (x == y && s.hour < t.hour)
    || (x == y && s.hour == t.hour && s.minute < t.minute)
    || (x == y && s.hour == t.hour && s.minute == t.minute && s.second < t.second)
    || (x == y && s.hour == t.hour && s.minute == t.minute && s.second == t.second
        && s.microsecond < t.microsecond)
  }

  /** A later date in the field order has a larger day number. */
  lemma DayIndexIncreasing(x: Date, y: Date)
    requires CivilDate(x) && CivilDate(y)
    requires x.year < y.year || (x.year == y.year && x.month < y.month)
             || (x.year == y.year && x.month == y.month && x.day < y.day)
    ensures DayIndex(x) < DayIndex(y)
  {
    if x.year < y.year {
      DayIndexInYear(x);
      DayIndexInYear(y);
      DaysBeforeYearMonotone(x.year + 1, y.year);
    } else if x.month < y.month {
      DaysBeforeMonthMonotone(x.year, x.month + 1, y.month);
    }
  }

  /** The microsecond count orders date-times exactly as Python's field-by-field comparison does. */
  lemma {:induction false} LexBeforeIffEarlier(a: DateTime, b: DateTime)
    requires Valid(a) && Valid(b)
    ensures LexBefore(a, b) <==> ToMicros(a) < ToMicros(b)
  {
    if LexBefore(a, b) {
      LexBeforeEarlier(a, b);
    } else if a == b {
    } else {
      assert LexBefore(b, a);
      LexBeforeEarlier(b, a);
    }
  }

  lemma LexBeforeEarlier(a: DateTime, b: DateTime)
    requires Valid(a) && Valid(b) && LexBefore(a, b)
    ensures ToMicros(a) < ToMicros(b)
  {
    var s := a.time;
    var t := b.time;
    if a.date != b.date {
      DayIndexIncreasing(a.date, b.date);
      assert SecondOfDay(s) * MicrosPerSecond + s.microsecond < MicrosPerDay;
    } else {
      assert SecondOfDay(s) * MicrosPerSecond + s.microsecond < SecondOfDay(t) * MicrosPerSecond + t.microsecond;
    }
  }

  lemma ToMicrosInjective(a: DateTime, b: DateTime)
    requires Valid(a) && Valid(b) && ToMicros(a) == ToMicros(b)
    ensures a == b
  {
    LexBeforeIffEarlier(a, b);
    LexBeforeIffEarlier(b, a);
    assert a == b || LexBefore(a, b) || LexBefore(b, a);
  }

  // ---------------------------------------------------------------------
  // From a microsecond count back to the calendar

  /** The month and day of the `n`-th day (from 0) counted from the first day of month `m`. */
  function MonthFrom(y: int, m: int, n: int): (r: (int, int))
    requires 1 <= m <= 12 && 0 <= n < DaysBeforeMonth(y, 13) - DaysBeforeMonth(y, m)
    ensures m <= r.0 <= 12 && 1 <= r.1 <= DaysInMonth(y, r.0)
    ensures DaysBeforeMonth(y, r.0) - DaysBeforeMonth(y, m) + r.1 - 1 == n
    decreases 12 - m
  {
    if n < DaysInMonth(y, m) then (m, n + 1)
    else MonthFrom(y, m + 1, n - DaysInMonth(y, m))
  }

  /** The date of the `n`-th day (from 0) counted from January 1st of year `y`. */
  function DateFrom(y: int, n: int): (d: Date)
    requires 1 <= y && 0 <= n
    ensures CivilDate(d) && y <= d.year
    ensures DayIndex(d) == DaysBeforeYear(y) + n
    decreases n
  {
    DaysBeforeMonthFullYear(y);
    DaysBeforeYearStep(y);
    if n < DaysInYear(y) then
      var md := MonthFrom(y, 1, n);
      Date(y, md.0, md.1)
    else
      DateFrom(y + 1, n - DaysInYear(y))
  }

  /** The time of day `rem` microseconds after midnight. */
  function TimeOf(rem: int): (t: Time)
    requires 0 <= rem < MicrosPerDay
    ensures ValidTime(t) && SecondOfDay(t) * MicrosPerSecond + t.microsecond == rem
  {
    var secs := rem / MicrosPerSecond;
    Time(secs / 3600, secs % 3600 / 60, secs % 60, rem % MicrosPerSecond)
  }

  lemma DateFromInRange(n: int)
    requires 0 <= n < DaysLimit
    ensures DateFrom(1, n).year <= MaxYear
  {
    var d := DateFrom(1, n);
    if d.year > MaxYear {
      DayIndexInYear(d);
      DaysBeforeYearMonotone(MaxYear + 1, d.year);
    }
  }

  /** The date-time `t` microseconds after 0001-01-01 00:00:00. */
  function FromMicros(t: int): (dt: DateTime)
    requires 0 <= t < MicrosLimit
    ensures Valid(dt) && ToMicros(dt) == t
  {
    var days := t / MicrosPerDay;
    var d := DateFrom(1, days);
    DateFromInRange(days);
    var time := TimeOf(t % MicrosPerDay);
    assert t == days * MicrosPerDay + t % MicrosPerDay;
    DateTime(d, time)
  }

  /** Converting to microseconds and back gives the same date-time. */
  lemma FromMicrosToMicros(dt: DateTime)
    requires Valid(dt)
    ensures FromMicros(ToMicros(dt)) == dt
  {
    ToMicrosInjective(FromMicros(ToMicros(dt)), dt);
  }

  // ---------------------------------------------------------------------
  // Arithmetic

  /**
   * `dt + timedelta(microseconds = us)`; `None` where Python raises
   * OverflowError because the sum is past 9999-12-31 23:59:59.999999.
   */
  function AddMicros(dt: DateTime, us: nat): (r: Option<DateTime>)
    requires Valid(dt)
    ensures r.Some? <==> ToMicros(dt) + us < MicrosLimit
    ensures r.Some? ==> Valid(r.value) && ToMicros(r.value) == ToMicros(dt) + us
  {
    var t := ToMicros(dt) + us;
    if t < MicrosLimit then Some(FromMicros(t)) else None
  }

  /** `a < b` for Python date-times. */
  predicate Before(a: DateTime, b: DateTime)
    requires Valid(a) && Valid(b)
  {
    ToMicros(a) < ToMicros(b)
  }

  /** The calendar successor of a date: the day, month and year carry. */
  function NextDay(d: Date): Date
    requires CivilDate(d)
  {
    if d.day < DaysInMonth(d.year, d.month) then Date(d.year, d.month, d.day + 1)
    else if d.month < 12 then Date(d.year, d.month + 1, 1)
    else Date(d.year + 1, 1, 1)
  }

  lemma NextDayIndex(d: Date)
    requires CivilDate(d)
    ensures CivilDate(NextDay(d)) && DayIndex(NextDay(d)) == DayIndex(d) + 1
  {
    if d.day == DaysInMonth(d.year, d.month) && d.month == 12 {
      DaysBeforeMonthFullYear(d.year);
      DaysBeforeYearStep(d.year);
    }
  }

  /**
   * A 90-second wait announced at 23:59:30 ends at 00:01:00 on the next
   * calendar day, whatever month or year boundary lies between.
   */
  lemma NinetySecondsPastMidnight(d: Date)
    requires ValidDate(d) && ValidDate(NextDay(d))
    ensures AddMicros(DateTime(d, Time(23, 59, 30, 0)), 90 * MicrosPerSecond)
            == Some(DateTime(NextDay(d), Time(0, 1, 0, 0)))
  {
    NextDayIndex(d);
    var r := AddMicros(DateTime(d, Time(23, 59, 30, 0)), 90 * MicrosPerSecond);
    assert ToMicros(DateTime(NextDay(d), Time(0, 1, 0, 0)))
        == ToMicros(DateTime(d, Time(23, 59, 30, 0))) + 90 * MicrosPerSecond;
    ToMicrosInjective(r.value, DateTime(NextDay(d), Time(0, 1, 0, 0)));
  }
}
