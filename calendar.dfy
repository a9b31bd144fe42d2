/**
 * Proleptic Gregorian calendar arithmetic over the date range Python's
 * `datetime.date` accepts (years 1 to 9999), the day-of-year ordinal that
 * `strftime("%j")` prints, and the GPS week counted from the GPS time
 * epoch, Sunday 1980-01-06 (section 3.3.4 of IS-GPS-200).
 */
module Calendar {
  import opened Wrappers

  datatype Date = Date(year: int, month: int, day: int)

  /** The only failure of date arithmetic: the result leaves years 1..9999 (Python's OverflowError). */
  datatype CalendarError = DateOutOfRange

  const MinYear: int := 1
  const MaxYear: int := 9999

  /** The origin of GPS time. */
  const GpsEpoch: Date := Date(1980, 1, 6)

  /** The day number of the GPS epoch (see EpochDayNumber). */
  const GpsEpochDayNumber: int := 722819

  predicate IsLeap(y: int) {
    y % 4 == 0 && (y % 100 != 0 || y % 400 == 0)
  }

  function DaysInYear(y: int): (n: int)
    ensures n == 365 || n == 366
    ensures n == 366 <==> IsLeap(y)
  {
    if IsLeap(y) then 366 else 365
  }

  function DaysInMonth(y: int, m: int): (n: int)
    requires 1 <= m <= 12
    ensures 28 <= n <= 31
    ensures m == 2 ==> (n == 29 <==> IsLeap(y))
  {
    if m == 2 then (if IsLeap(y) then 29 else 28)
    else if m == 4 || m == 6 || m == 9 || m == 11 then 30
    else 31
  }

  predicate ValidDate(d: Date) {
    MinYear <= d.year <= MaxYear && 1 <= d.month <= 12 && 1 <= d.day <= DaysInMonth(d.year, d.month)
  }

  /** Days in the years before `y`, counted from 0001-01-01: the lengths of years 1 to y - 1 added up. */
  function DaysBeforeYear(y: int): (n: int)
    requires 1 <= y
    ensures 365 * (y - 1) <= n
  {
    if y == 1 then 0 else DaysBeforeYear(y - 1) + DaysInYear(y - 1)
  }

  /** The sum of year lengths has the usual closed form: 365 days a year plus one per leap year. */
  lemma {:induction false} DaysBeforeYearClosedForm(y: int)
    requires 1 <= y
    ensures DaysBeforeYear(y) == 365 * (y - 1) + (y - 1) / 4 - (y - 1) / 100 + (y - 1) / 400
  {
    if y > 1 {
      DaysBeforeYearClosedForm(y - 1);
      LeapCountStep(y - 2);
    }
  }

  /** Counting one more year adds one to the leap-year count exactly when that year is a leap year. */
  lemma LeapCountStep(p: int)
    requires 0 <= p
    ensures (p + 1) / 4 - (p + 1) / 100 + (p + 1) / 400 == p / 4 - p / 100 + p / 400 + (if IsLeap(p + 1) then 1 else 0)
  {
    assert (p + 1) / 4 == p / 4 + (if (p + 1) % 4 == 0 then 1 else 0);
    assert (p + 1) / 100 == p / 100 + (if (p + 1) % 100 == 0 then 1 else 0);
    assert (p + 1) / 400 == p / 400 + (if (p + 1) % 400 == 0 then 1 else 0);
  }

  /** Days in the months of year `y` before month `m`; month 13 stands for the end of the year. */
  function DaysBeforeMonth(y: int, m: int): (n: int)
    requires 1 <= m <= 13
    ensures m == 13 ==> n == DaysInYear(y)
    ensures 0 <= n
  {
    var leapDay := if m > 2 && IsLeap(y) then 1 else 0;
    [0, 31, 59, 90, 120, 151, 181, 212, 243, 273, 304, 334, 365][m - 1] + leapDay
  }

  /** Month `m` ends where month `m + 1` begins. */
  lemma NextMonth(y: int, m: int)
    requires 1 <= m <= 12
    ensures DaysBeforeMonth(y, m) + DaysInMonth(y, m) == DaysBeforeMonth(y, m + 1)
  {
  }

  /** The number of days from 0001-01-01 to `d` (Python's `toordinal() - 1`). */
  function DayNumber(d: Date): int
    requires ValidDate(d)
  {
    DaysBeforeYear(d.year) + DaysBeforeMonth(d.year, d.month) + d.day - 1
  }

  /** One past the largest day number, that of 9999-12-31. */
  const DayNumberLimit: int := 3652059

  lemma DayNumberLimitIsEndOfRange()
    ensures DaysBeforeYear(MaxYear + 1) == DayNumberLimit
  {
    var y := MaxYear + 1;
    DaysBeforeYearClosedForm(y);
  }

  /** The 1-based ordinal of `d` within its own year: what `strftime("%j")` prints. */
  function DayOfYear(d: Date): (n: int)
    requires ValidDate(d)
    ensures 1 <= n <= DaysInYear(d.year)
    ensures n <= 365 || IsLeap(d.year)
  {
    NextMonth(d.year, d.month);
    MonthsMonotone(d.year, d.month + 1, 13);
    DaysBeforeMonth(d.year, d.month) + d.day
  }

  /** The day-of-year counts the days since January 1 of the same year, that day being 1. */
  lemma DayOfYearOrdinal(d: Date)
    requires ValidDate(d)
    ensures ValidDate(Date(d.year, 1, 1))
    ensures DayOfYear(d) == DayNumber(d) - DayNumber(Date(d.year, 1, 1)) + 1
  {
  }

  lemma {:induction false} NextYear(y: int)
    requires 1 <= y
    ensures DaysBeforeYear(y + 1) == DaysBeforeYear(y) + DaysInYear(y)
  {
  }

  /** Later years start later: the year boundaries are strictly increasing. */
  lemma {:induction false} YearsMonotone(a: int, b: int)
    requires 1 <= a <= b
    ensures DaysBeforeYear(a) + 365 * (b - a) <= DaysBeforeYear(b)
    decreases b - a
  {
    if a < b {
      NextYear(a);
      YearsMonotone(a + 1, b);
    }
  }

  lemma {:induction false} MonthsMonotone(y: int, a: int, b: int)
    requires 1 <= a <= b <= 13
    ensures DaysBeforeMonth(y, a) + 28 * (b - a) <= DaysBeforeMonth(y, b)
    decreases b - a
  {
    if a < b {
      NextMonth(y, a);
      MonthsMonotone(y, a + 1, b);
    }
  }

  /** Each year has at most 366 days, so year `y` starts no later than day 366 * (y - 1). */
  lemma {:induction false} YearStartBound(y: int)
    requires 1 <= y
    ensures DaysBeforeYear(y) <= 366 * (y - 1)
  {
    if y > 1 {
      YearStartBound(y - 1);
    }
  }

  /** The year holding day number `n`, searched upwards from year `y`. */
  function YearSearch(y: int, n: int): (r: int)
    requires 1 <= y && DaysBeforeYear(y) <= n
    ensures y <= r && DaysBeforeYear(r) <= n < DaysBeforeYear(r + 1)
    decreases n - DaysBeforeYear(y)
  {
    NextYear(y);
    if n < DaysBeforeYear(y + 1) then y else YearSearch(y + 1, n)
  }

  /** The month of year `y` holding its day `r` (0-based), searched upwards from month `m`. */
  function MonthSearch(y: int, m: int, r: int): (k: int)
    requires 1 <= m <= 12 && DaysBeforeMonth(y, m) <= r < DaysInYear(y)
    ensures m <= k <= 12 && DaysBeforeMonth(y, k) <= r < DaysBeforeMonth(y, k + 1)
    decreases 12 - m
  {
    NextMonth(y, m);
    if r < DaysBeforeMonth(y, m + 1) then m else MonthSearch(y, m + 1, r)
  }

  /** The date whose day number is `n`. */
  function FromDayNumber(n: int): (d: Date)
    requires 0 <= n < DayNumberLimit
    ensures ValidDate(d) && DayNumber(d) == n
  {
    var start := n / 366 + 1;
    YearStartBound(start);
    var y := YearSearch(start, n);
    assert y <= MaxYear by {
      if MaxYear < y {
        DayNumberLimitIsEndOfRange();
        YearsMonotone(MaxYear + 1, y);
      }
    }
    var r := n - DaysBeforeYear(y);
    NextYear(y);
    var m := MonthSearch(y, 1, r);
    NextMonth(y, m);
    Date(y, m, r - DaysBeforeMonth(y, m) + 1)
  }

  /** Two distinct dates have distinct day numbers. */
  lemma DayNumberInjective(a: Date, b: Date)
    requires ValidDate(a) && ValidDate(b) && DayNumber(a) == DayNumber(b)
    ensures a == b
  {
    WithinYear(a);
    WithinYear(b);
    SameYear(a.year, b.year, DayNumber(a));
    NextMonth(a.year, a.month);
    NextMonth(b.year, b.month);
    SameMonth(a.year, a.month, b.month, DayNumber(a) - DaysBeforeYear(a.year));
  }

  /** A date's day number lies between the first and the last day number of its year. */
  lemma WithinYear(d: Date)
    requires ValidDate(d)
    ensures DaysBeforeYear(d.year) <= DayNumber(d) < DaysBeforeYear(d.year + 1)
  {
    NextYear(d.year);
    NextMonth(d.year, d.month);
    MonthsMonotone(d.year, d.month + 1, 13);
  }

  /** Every valid date has a day number below the limit. */
  lemma DayNumberBounds(d: Date)
    requires ValidDate(d)
    ensures 0 <= DayNumber(d) < DayNumberLimit
  {
    WithinYear(d);
    YearsMonotone(d.year + 1, MaxYear + 1);
    DayNumberLimitIsEndOfRange();
  }

  /** FromDayNumber inverts DayNumber. */
  lemma DayNumberRoundTrip(d: Date)
    requires ValidDate(d)
    ensures DayNumber(d) < DayNumberLimit && FromDayNumber(DayNumber(d)) == d
  {
    DayNumberBounds(d);
    DayNumberInjective(FromDayNumber(DayNumber(d)), d);
  }

  lemma SameYear(y1: int, y2: int, n: int)
    requires 1 <= y1 && 1 <= y2
    requires DaysBeforeYear(y1) <= n < DaysBeforeYear(y1 + 1)
    requires DaysBeforeYear(y2) <= n < DaysBeforeYear(y2 + 1)
    ensures y1 == y2
  {
    if y1 < y2 {
      YearsMonotone(y1 + 1, y2);
    } else if y2 < y1 {
      YearsMonotone(y2 + 1, y1);
    }
  }

  lemma SameMonth(y: int, m1: int, m2: int, r: int)
    requires 1 <= m1 <= 12 && 1 <= m2 <= 12
    requires DaysBeforeMonth(y, m1) <= r < DaysBeforeMonth(y, m1 + 1)
    requires DaysBeforeMonth(y, m2) <= r < DaysBeforeMonth(y, m2 + 1)
    ensures m1 == m2
  {
    if m1 < m2 {
      MonthsMonotone(y, m1 + 1, m2);
    } else if m2 < m1 {
      MonthsMonotone(y, m2 + 1, m1);
    }
  }

  /** `d - timedelta(days=k)`: fails exactly when the result falls outside years 1..9999. */
  function SubDays(d: Date, k: int): (r: Result<Date, CalendarError>)
    requires ValidDate(d)
    ensures r.Ok? <==> 0 <= DayNumber(d) - k < DayNumberLimit
    ensures r.Ok? ==> ValidDate(r.value) && DayNumber(r.value) + k == DayNumber(d)
  {
    var n := DayNumber(d) - k;
    if 0 <= n < DayNumberLimit then Ok(FromDayNumber(n)) else Err(DateOutOfRange)
  }

  /** `d + timedelta(days=k)`. */
  function AddDays(d: Date, k: int): (r: Result<Date, CalendarError>)
    requires ValidDate(d)
    ensures r.Ok? <==> 0 <= DayNumber(d) + k < DayNumberLimit
    ensures r.Ok? ==> ValidDate(r.value) && DayNumber(r.value) == DayNumber(d) + k
  {
    SubDays(d, -k)
  }

  /** The calendar's next day: the next day of the month, else the 1st of the next month, else 1 January. */
  function NextDate(d: Date): Date
    requires ValidDate(d)
  {
    if d.day < DaysInMonth(d.year, d.month) then Date(d.year, d.month, d.day + 1)
    else if d.month < 12 then Date(d.year, d.month + 1, 1)
    else Date(d.year + 1, 1, 1)
  }

  /** Day numbers count calendar days: the day after `d` has the next day number. */
  lemma NextDateDayNumber(d: Date)
    requires ValidDate(d)
    ensures ValidDate(NextDate(d)) <==> d.year < MaxYear || d.month < 12 || d.day < 31
    ensures ValidDate(NextDate(d)) ==> DayNumber(NextDate(d)) == DayNumber(d) + 1
  {
    NextMonth(d.year, d.month);
    if d.month == 12 && d.day == DaysInMonth(d.year, d.month) {
      NextYear(d.year);
    }
  }

  /** Adding one day gives the calendar's next day, and fails only after 9999-12-31. */
  lemma AddOneDay(d: Date)
    requires ValidDate(d)
    ensures AddDays(d, 1).Ok? <==> ValidDate(NextDate(d))
    ensures AddDays(d, 1).Ok? ==> AddDays(d, 1).value == NextDate(d)
  {
    if ValidDate(NextDate(d)) {
      AddOneDayWithin(d);
    } else {
      AddOneDayPastEnd(d);
    }
  }

  lemma AddOneDayWithin(d: Date)
    requires ValidDate(d) && ValidDate(NextDate(d))
    ensures AddDays(d, 1) == Ok(NextDate(d))
  {
    var e := NextDate(d);
    NextDateDayNumber(d);
    DayNumberBounds(e);
    DayNumberInjective(AddDays(d, 1).value, e);
  }

  lemma AddOneDayPastEnd(d: Date)
    requires ValidDate(d) && !ValidDate(NextDate(d))
    ensures AddDays(d, 1).Err?
  {
    NextDateDayNumber(d);
    YearEnd(d.year);
    DayNumberLimitIsEndOfRange();
  }

  /** The last day of a year is the day before the next year starts. */
  lemma YearEnd(y: int)
    requires MinYear <= y <= MaxYear
    ensures ValidDate(Date(y, 12, 31)) && DayNumber(Date(y, 12, 31)) + 1 == DaysBeforeYear(y + 1)
  {
    NextMonth(y, 12);
    NextYear(y);
  }

  /** Going back `k` days and then forward `k` days returns to the starting date. */
  lemma SubThenAdd(d: Date, k: int)
    requires ValidDate(d) && SubDays(d, k).Ok?
    ensures AddDays(SubDays(d, k).value, k) == Ok(d)
  {
    var t := SubDays(d, k).value;
    DayNumberBounds(d);
    var r := AddDays(t, k);
    DayNumberInjective(r.value, d);
  }

  /**
   * The day of the week, Monday 0 to Sunday 6 (0001-01-01 was a Monday):
   * a helper for stating when GPS weeks begin.
   */
  function Weekday(d: Date): (w: int)
    requires ValidDate(d)
    ensures 0 <= w < 7
  {
    DayNumber(d) % 7
  }

  /** The GPS week holding `d`: whole weeks elapsed since the GPS epoch, rounded down. */
  function GpsWeek(d: Date): int
    requires ValidDate(d)
  {
    (DayNumber(d) - GpsEpochDayNumber) / 7
  }

  lemma EpochDayNumber()
    ensures ValidDate(GpsEpoch) && DayNumber(GpsEpoch) == GpsEpochDayNumber
  {
    var y := GpsEpoch.year;
    DaysBeforeYearClosedForm(y);
  }

  /**
   * `d` falls inside its GPS week: at least 7 * w and fewer than 7 * (w + 1)
   * days after the epoch; the week is non-negative exactly from the epoch on.
   */
  lemma GpsWeekBounds(d: Date)
    requires ValidDate(d)
    ensures 7 * GpsWeek(d) <= DayNumber(d) - DayNumber(GpsEpoch) < 7 * (GpsWeek(d) + 1)
    ensures 0 <= GpsWeek(d) <==> DayNumber(GpsEpoch) <= DayNumber(d)
  {
    EpochDayNumber();
  }

  /** The GPS week number moves on by one at each Sunday and only then. */
  lemma GpsWeekTurnsOnSunday(d: Date)
    requires ValidDate(d) && AddDays(d, 1).Ok?
    ensures GpsWeek(AddDays(d, 1).value) == GpsWeek(d) + (if Weekday(AddDays(d, 1).value) == 6 then 1 else 0)
  {
    var e := GpsEpochDayNumber;
    var n := DayNumber(d);
    assert DayNumber(AddDays(d, 1).value) == n + 1;
    WeekStep(n - e);
    SundayShift(n + 1, e);
  }

  lemma WeekStep(x: int)
    ensures (x + 1) / 7 == x / 7 + (if (x + 1) % 7 == 0 then 1 else 0)
  {
  }

  lemma SundayShift(x: int, e: int)
    requires e % 7 == 6
    ensures x % 7 == 6 <==> (x - e) % 7 == 0
  {
  }

  /** The GPS epoch itself is a Sunday and opens week 0. */
  lemma EpochIsSunday()
    ensures ValidDate(GpsEpoch) && Weekday(GpsEpoch) == 6 && GpsWeek(GpsEpoch) == 0
  {
    EpochDayNumber();
  }
}
