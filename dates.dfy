/** Calendar dates, times of day and date-times, with the arithmetic the
    parser needs: adding whole days to a date and one hour to a date-time.
    Dates are proleptic Gregorian, years 1 to 9999, as Python's `datetime`
    represents them. */
module Dates {
  import opened Results

  datatype Date = Date(year: int, month: int, day: int)
  datatype TimeOfDay = TimeOfDay(hour: int, minute: int)
  datatype DateTime = DateTime(date: Date, time: TimeOfDay)

  const MaxYear := 9999
  /** The ordinal of 9999-12-31, the last representable day. */
  const MaxOrdinal := 3652059

  predicate IsLeapYear(y: int)
  {
    y % 4 == 0 && (y % 100 != 0 || y % 400 == 0)
  }

  function DaysInYear(y: int): nat
  {
    if IsLeapYear(y) then 366 else 365
  }

  function DaysInMonth(y: int, m: int): nat
    requires 1 <= m <= 12
  {
    if m == 2 then (if IsLeapYear(y) then 29 else 28)
    else if m == 4 || m == 6 || m == 9 || m == 11 then 30
    else 31
  }

  /** A real calendar day of year 1 or later (no upper bound on the year). */
  predicate WellFormed(d: Date)
  {
    1 <= d.year && 1 <= d.month <= 12 && 1 <= d.day <= DaysInMonth(d.year, d.month)
  }

  /** A day that Python's `date` can represent. */
  predicate ValidDate(d: Date)
  {
    WellFormed(d) && d.year <= MaxYear
  }

  predicate ValidTime(t: TimeOfDay)
  {
    0 <= t.hour <= 23 && 0 <= t.minute <= 59
  }

  /** The bound of the C `int` that `time()` converts each argument to. */
  const IntLimit := 0x8000_0000

  predicate FitsCInt(n: int)
  {
    -IntLimit <= n < IntLimit
  }

  /** The error `time(hour, minute)` raises when it refuses its arguments:
      an argument too wide for a C int is refused before any range check. */
  function TimeError(hour: int, minute: int): ParseError
  {
    if FitsCInt(hour) && FitsCInt(minute) then TimeValueError else TimeArgOverflow
  }

  /** `time(hour, minute)`: both arguments are converted to C ints (raising
      OverflowError when too wide), then refused when out of range. */
  function MakeTime(hour: int, minute: int): (r: Result<TimeOfDay>)
    ensures r.Ok? <==> 0 <= hour <= 23 && 0 <= minute <= 59
    ensures r.Ok? ==> ValidTime(r.value) && r.value.hour == hour && r.value.minute == minute
    ensures r.Err? ==> r.error == TimeError(hour, minute)
    ensures r.Err? ==> (r.error == TimeArgOverflow <==> hour >= IntLimit || minute >= IntLimit || hour < -IntLimit || minute < -IntLimit)
  {
    if !FitsCInt(hour) || !FitsCInt(minute) then Err(TimeArgOverflow)
    else if 0 <= hour <= 23 && 0 <= minute <= 59 then Ok(TimeOfDay(hour, minute))
    else Err(TimeValueError)
  }

  /** The day after `d`. */
  function NextDay(d: Date): Date
    requires WellFormed(d)
  {
    if d.day < DaysInMonth(d.year, d.month) then Date(d.year, d.month, d.day + 1)
    else if d.month < 12 then Date(d.year, d.month + 1, 1)
    else Date(d.year + 1, 1, 1)
  }

  /** `d` moved forward by `n` whole days, before any range check. */
  function AddDays(d: Date, n: nat): Date
    requires WellFormed(d)
    decreases n
  {
    if n == 0 then d else AddDays(NextDay(d), n - 1)
  }

  /** `date + timedelta(days=n)`: overflows past the last representable day. */
  function ShiftDate(d: Date, n: nat): Result<Date>
    requires ValidDate(d)
  {
    var r := AddDays(d, n);
    if r.year <= MaxYear then Ok(r) else Err(DateOverflow)
  }

  /** Days in the years before `y` (Python's `_days_before_year`). */
  function DaysBeforeYear(y: int): int
    requires 1 <= y
  {
    var y1 := y - 1;
    y1 * 365 + y1 / 4 - y1 / 100 + y1 / 400
  }

  /** Days in the months of year `y` before month `m`. */
  function DaysBeforeMonth(y: int, m: int): nat
    requires 1 <= m <= 13
  {
    if m == 1 then 0 else DaysBeforeMonth(y, m - 1) + DaysInMonth(y, m - 1)
  }

  /** The day number of `d`, counting 0001-01-01 as day 1 (`date.toordinal`). */
  function Ordinal(d: Date): int
    requires WellFormed(d)
  {
    DaysBeforeYear(d.year) + DaysBeforeMonth(d.year, d.month) + d.day
  }

  /** Going from `y - 1` to `y` adds one multiple of 4, 100 or 400 exactly
      when `y` is that multiple. */
  lemma LeapCounts(y: int)
    requires 1 <= y
    ensures y / 4 - (y - 1) / 4 == if y % 4 == 0 then 1 else 0
    ensures y / 100 - (y - 1) / 100 == if y % 100 == 0 then 1 else 0
    ensures y / 400 - (y - 1) / 400 == if y % 400 == 0 then 1 else 0
  {
    assert y / 4 - (y - 1) / 4 == if y % 4 == 0 then 1 else 0 by {
      var q, r := (y - 1) / 4, (y - 1) % 4;
      assert y == 4 * q + r + 1;
    }
    assert y / 100 - (y - 1) / 100 == if y % 100 == 0 then 1 else 0 by {
      var q, r := (y - 1) / 100, (y - 1) % 100;
      assert y == 100 * q + r + 1;
    }
    assert y / 400 - (y - 1) / 400 == if y % 400 == 0 then 1 else 0 by {
      var q, r := (y - 1) / 400, (y - 1) % 400;
      assert y == 400 * q + r + 1;
    }
  }

  /** Consecutive years differ by the length of the earlier one. */
  lemma DaysBeforeNextYear(y: int)
    requires 1 <= y
    ensures DaysBeforeYear(y + 1) == DaysBeforeYear(y) + DaysInYear(y)
  {
    LeapCounts(y);
  }

  /** The months of a year add up to the year. */
  lemma MonthsFillYear(y: int)
    ensures DaysBeforeMonth(y, 13) == DaysInYear(y)
  {
    var feb := DaysInMonth(y, 2);
    assert DaysBeforeMonth(y, 2) == 31;
    assert DaysBeforeMonth(y, 3) == feb + 31;
    assert DaysBeforeMonth(y, 4) == feb + 62;
    assert DaysBeforeMonth(y, 5) == feb + 92;
    assert DaysBeforeMonth(y, 6) == feb + 123;
    assert DaysBeforeMonth(y, 7) == feb + 153;
    assert DaysBeforeMonth(y, 8) == feb + 184;
    assert DaysBeforeMonth(y, 9) == feb + 215;
    assert DaysBeforeMonth(y, 10) == feb + 245;
    assert DaysBeforeMonth(y, 11) == feb + 276;
    assert DaysBeforeMonth(y, 12) == feb + 306;
    assert DaysBeforeMonth(y, 13) == feb + 337;
  }

  /** The day after `d` is a real day whose ordinal is one more. */
  lemma NextDayOrdinal(d: Date)
    requires WellFormed(d)
    ensures WellFormed(NextDay(d))
    ensures NextDay(d).year == d.year || NextDay(d).year == d.year + 1
    ensures Ordinal(NextDay(d)) == Ordinal(d) + 1
  {
    if d.day == DaysInMonth(d.year, d.month) && d.month == 12 {
      DaysBeforeNextYear(d.year);
      MonthsFillYear(d.year);
    }
  }

  /** Adding `n` days adds `n` to the ordinal and never moves backwards. */
  lemma {:induction false} AddDaysOrdinal(d: Date, n: nat)
    requires WellFormed(d)
    ensures WellFormed(AddDays(d, n))
    ensures d.year <= AddDays(d, n).year <= d.year + n
    ensures Ordinal(AddDays(d, n)) == Ordinal(d) + n
    decreases n
  {
    if n > 0 {
      NextDayOrdinal(d);
      AddDaysOrdinal(NextDay(d), n - 1);
    }
  }

  lemma {:induction false} DaysBeforeYearMonotone(y: int, y': int)
    requires 1 <= y <= y'
    ensures DaysBeforeYear(y) + 365 * (y' - y) <= DaysBeforeYear(y')
    decreases y' - y
  {
    if y < y' {
      DaysBeforeNextYear(y);
      DaysBeforeYearMonotone(y + 1, y');
    }
  }

  lemma {:induction false} DaysBeforeMonthMonotone(y: int, m: int, m': int)
    requires 1 <= m <= m' <= 13
    ensures DaysBeforeMonth(y, m) + 28 * (m' - m) <= DaysBeforeMonth(y, m')
    decreases m' - m
  {
    if m < m' {
      DaysBeforeMonthMonotone(y, m, m' - 1);
    }
  }

  /** A day's ordinal lies inside its own year. */
  lemma OrdinalWithinYear(d: Date)
    requires WellFormed(d)
    ensures DaysBeforeYear(d.year) < Ordinal(d) <= DaysBeforeYear(d.year + 1)
  {
    DaysBeforeMonthMonotone(d.year, d.month + 1, 13);
    MonthsFillYear(d.year);
    DaysBeforeNextYear(d.year);
  }

  /** A day of an earlier year has a smaller ordinal. */
  lemma EarlierYearSmallerOrdinal(a: Date, b: Date)
    requires WellFormed(a) && WellFormed(b) && a.year < b.year
    ensures Ordinal(a) < Ordinal(b)
  {
    OrdinalWithinYear(a);
    OrdinalWithinYear(b);
    DaysBeforeYearMonotone(a.year + 1, b.year);
  }

  /** A day of an earlier month of the same year has a smaller ordinal. */
  lemma EarlierMonthSmallerOrdinal(a: Date, b: Date)
    requires WellFormed(a) && WellFormed(b) && a.year == b.year && a.month < b.month
    ensures Ordinal(a) < Ordinal(b)
  {
    DaysBeforeMonthMonotone(a.year, a.month + 1, b.month);
  }

  /** Distinct days have distinct ordinals. */
  lemma OrdinalInjective(a: Date, b: Date)
    requires WellFormed(a) && WellFormed(b)
    requires Ordinal(a) == Ordinal(b)
    ensures a == b
  {
    if a.year < b.year {
      EarlierYearSmallerOrdinal(a, b);
    } else if b.year < a.year {
      EarlierYearSmallerOrdinal(b, a);
    } else if a.month < b.month {
      EarlierMonthSmallerOrdinal(a, b);
    } else if b.month < a.month {
      EarlierMonthSmallerOrdinal(b, a);
    }
  }

  /** `n` days after `d` is the one day whose ordinal is `n` more. */
  lemma AddDaysIsOrdinalShift(d: Date, n: nat, e: Date)
    requires WellFormed(d) && WellFormed(e)
    ensures AddDays(d, n) == e <==> Ordinal(e) == Ordinal(d) + n
  {
    AddDaysOrdinal(d, n);
    if Ordinal(e) == Ordinal(d) + n {
      OrdinalInjective(AddDays(d, n), e);
    }
  }

  /** Shifting succeeds exactly when the target ordinal is representable, and
      then it lands on a valid date `n` days later. */
  lemma ShiftDateInRange(d: Date, n: nat)
    requires ValidDate(d)
    ensures ShiftDate(d, n).Ok? <==> Ordinal(d) + n <= MaxOrdinal
    ensures ShiftDate(d, n).Ok? ==>
      ValidDate(ShiftDate(d, n).value) && Ordinal(ShiftDate(d, n).value) == Ordinal(d) + n
    ensures ShiftDate(d, n).Err? ==> ShiftDate(d, n).error == DateOverflow
  {
    var r := AddDays(d, n);
    AddDaysOrdinal(d, n);
    OrdinalWithinYear(r);
    assert DaysBeforeYear(MaxYear + 1) == MaxOrdinal;
    if r.year <= MaxYear {
      DaysBeforeYearMonotone(r.year + 1, MaxYear + 1);
    } else {
      DaysBeforeYearMonotone(MaxYear + 1, r.year);
    }
  }

  /** Minutes since midnight. */
  function MinuteOfDay(t: TimeOfDay): int
  {
    t.hour * 60 + t.minute
  }

  /** `datetime.combine(date, t) + timedelta(hours=1)`, keeping only the time of
      day; the addition overflows only at 23:00 or later on the last
      representable day. */
  function LaterByOneHour(date: Date, t: TimeOfDay): (r: Result<TimeOfDay>)
    requires ValidDate(date) && ValidTime(t)
    ensures r.Ok? <==> !(date == Date(MaxYear, 12, 31) && t.hour == 23)
    ensures r.Ok? ==> ValidTime(r.value) && MinuteOfDay(r.value) == (MinuteOfDay(t) + 60) % 1440
    ensures r.Err? ==> r.error == DateOverflow
  {
    if date == Date(MaxYear, 12, 31) && t.hour == 23 then Err(DateOverflow)
    else
      HourLaterWraps(t);
      Ok(TimeOfDay((t.hour + 1) % 24, t.minute))
  }

  /** The hour after `t`, read on a 24-hour clock, is 60 minutes later modulo
      a day. */
  lemma HourLaterWraps(t: TimeOfDay)
    requires ValidTime(t)
    ensures MinuteOfDay(TimeOfDay((t.hour + 1) % 24, t.minute)) == (MinuteOfDay(t) + 60) % 1440
  {
    if t.hour < 23 {
      assert (t.hour + 1) % 24 == t.hour + 1;
      assert 0 <= MinuteOfDay(t) + 60 < 1440;
    } else {
      assert (t.hour + 1) % 24 == 0;
      assert MinuteOfDay(t) + 60 == 1440 + t.minute;
    }
  }

  /** The last representable day is the only one with the largest ordinal. */
  lemma LastDay(d: Date)
    requires ValidDate(d)
    ensures Ordinal(d) <= MaxOrdinal
    ensures Ordinal(d) == MaxOrdinal <==> d == Date(MaxYear, 12, 31)
  {
    ShiftDateInRange(d, 0);
    var last := Date(MaxYear, 12, 31);
    assert Ordinal(last) == MaxOrdinal by {
      assert DaysBeforeMonth(MaxYear, 12) == 334;
    }
    if Ordinal(d) == MaxOrdinal {
      OrdinalInjective(d, last);
    }
  }

  /** A date-time as minutes since 0001-01-01 00:00. */
  function Instant(dt: DateTime): int
    requires WellFormed(dt.date)
  {
    (Ordinal(dt.date) - 1) * 1440 + MinuteOfDay(dt.time)
  }

  /** `dt + timedelta(hours=1)` as a whole date-time: the date moves on when
      the hour passes midnight, and the addition overflows only from 23:00 on
      the last representable day. */
  function AddOneHour(dt: DateTime): (r: Result<DateTime>)
    requires ValidDate(dt.date) && ValidTime(dt.time)
    ensures r.Ok? <==> !(dt.date == Date(MaxYear, 12, 31) && dt.time.hour == 23)
    ensures r.Ok? ==> ValidDate(r.value.date) && ValidTime(r.value.time) && Instant(r.value) == Instant(dt) + 60
    ensures r.Err? ==> r.error == DateOverflow
  {
    if dt.time.hour < 23 then Ok(DateTime(dt.date, TimeOfDay(dt.time.hour + 1, dt.time.minute)))
    else
      LastDay(dt.date);
      ShiftDateInRange(dt.date, 1);
      match ShiftDate(dt.date, 1)
      case Ok(next) => Ok(DateTime(next, TimeOfDay(0, dt.time.minute)))
      case Err(e) => Err(e)
  }

  /** On one date, the time of day one hour after a time from 23:00 on lies
      23 hours earlier. */
  lemma WrapOnSameDate(date: Date, s: TimeOfDay, e: TimeOfDay)
    requires WellFormed(date) && ValidTime(s) && s.hour == 23
    requires MinuteOfDay(e) == (MinuteOfDay(s) + 60) % 1440
    ensures Instant(DateTime(date, e)) == Instant(DateTime(date, s)) - 23 * 60
  {
    assert MinuteOfDay(s) + 60 - 1440 == s.minute;
  }

  /** Before 23:00 both additions stay on the same day. */
  lemma AnHourLaterSameDay(date: Date, t: TimeOfDay)
    requires ValidDate(date) && ValidTime(t) && t.hour < 23
    ensures LaterByOneHour(date, t) == Ok(TimeOfDay(t.hour + 1, t.minute))
    ensures AddOneHour(DateTime(date, t)) == Ok(DateTime(date, TimeOfDay(t.hour + 1, t.minute)))
  {
    assert (t.hour + 1) % 24 == t.hour + 1;
  }

  /** From 23:00 on, before the last day, both additions give minute `m` of
      hour 0; only the whole addition moves to the next day. */
  lemma AnHourLaterNextDay(date: Date, t: TimeOfDay)
    requires ValidDate(date) && ValidTime(t) && t.hour == 23 && date != Date(MaxYear, 12, 31)
    ensures LaterByOneHour(date, t) == Ok(TimeOfDay(0, t.minute))
    ensures ShiftDate(date, 1).Ok?
    ensures AddOneHour(DateTime(date, t)) == Ok(DateTime(ShiftDate(date, 1).value, TimeOfDay(0, t.minute)))
  {
    LastDay(date);
    ShiftDateInRange(date, 1);
  }

  /** The time of day `parse` keeps after widening is the time of day of the
      whole addition; only the date of that addition is dropped. */
  lemma LaterByOneHourKeepsTime(date: Date, t: TimeOfDay)
    requires ValidDate(date) && ValidTime(t)
    ensures LaterByOneHour(date, t).Ok? <==> AddOneHour(DateTime(date, t)).Ok?
    ensures LaterByOneHour(date, t).Ok? ==> LaterByOneHour(date, t).value == AddOneHour(DateTime(date, t)).value.time
  {
    if t.hour < 23 {
      AnHourLaterSameDay(date, t);
    } else if date != Date(MaxYear, 12, 31) {
      AnHourLaterNextDay(date, t);
    }
  }
}
