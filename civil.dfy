/**
 * Proleptic Gregorian dates and naive date-times at minute resolution, as Python's
 * datetime module computes them, including `datetime + timedelta`.
 */
module Civil {
  import opened Common

  datatype Date = Date(year: int, month: int, day: int)
  datatype DateTime = DateTime(date: Date, hour: int, minute: int)

  const MinYear := 1
  const MaxYear := 9999
  const MinutesPerDay := 1440

  predicate IsLeapYear(y: int) {
    y % 4 == 0 && (y % 100 != 0 || y % 400 == 0)
  }

  function DaysInMonth(y: int, m: int): int
    requires 1 <= m <= 12
  {
    if m == 2 then (if IsLeapYear(y) then 29 else 28)
    else if m == 4 || m == 6 || m == 9 || m == 11 then 30
    else 31
  }

  predicate ValidDate(d: Date) {
    1 <= d.month <= 12 && 1 <= d.day <= DaysInMonth(d.year, d.month)
  }

  /** A date Python's datetime can hold. */
  predicate InRange(d: Date) {
    MinYear <= d.year <= MaxYear
  }

  predicate ValidDateTime(t: DateTime) {
    ValidDate(t.date) && 0 <= t.hour < 24 && 0 <= t.minute < 60
  }

  function Midnight(d: Date): DateTime { DateTime(d, 0, 0) }

  function NextDay(d: Date): (r: Date)
    requires ValidDate(d)
    ensures ValidDate(r)
  {
    if d.day < DaysInMonth(d.year, d.month) then Date(d.year, d.month, d.day + 1)
    else if d.month < 12 then Date(d.year, d.month + 1, 1)
    else Date(d.year + 1, 1, 1)
  }

  function PrevDay(d: Date): (r: Date)
    requires ValidDate(d)
    ensures ValidDate(r)
  {
    if d.day > 1 then Date(d.year, d.month, d.day - 1)
    else if d.month > 1 then Date(d.year, d.month - 1, DaysInMonth(d.year, d.month - 1))
    else Date(d.year - 1, 12, 31)
  }

  lemma PrevDayUndoesNextDay(d: Date)
    requires ValidDate(d)
    ensures PrevDay(NextDay(d)) == d
    ensures NextDay(PrevDay(d)) == d
  {
  }

  /** Days in the years before `y`, counted from 1 January of year 1 (Python's _days_before_year). */
  function DaysBeforeYear(y: int): int {
    (y - 1) * 365 + (y - 1) / 4 - (y - 1) / 100 + (y - 1) / 400
  }

  /** Days in the months of a common year before each month. */
  const DaysBeforeMonthTable: seq<int> := [0, 31, 59, 90, 120, 151, 181, 212, 243, 273, 304, 334]

  /** Days in the months of `y` before `m` (Python's _days_before_month). */
  function DaysBeforeMonth(y: int, m: int): int
    requires 1 <= m <= 12
  {
    DaysBeforeMonthTable[m - 1] + (if m > 2 && IsLeapYear(y) then 1 else 0)
  }

  /** date.toordinal(): 1 for 1 January of year 1, counting every day of the proleptic calendar. */
  function ToOrdinal(d: Date): int
    requires 1 <= d.month <= 12
  {
    DaysBeforeYear(d.year) + DaysBeforeMonth(d.year, d.month) + d.day
  }

  /** A year has 366 days when it is a leap year and 365 otherwise. */
  lemma YearLength(y: int)
    ensures DaysBeforeYear(y + 1) - DaysBeforeYear(y) == if IsLeapYear(y) then 366 else 365
  {
    assert y / 4 - (y - 1) / 4 == if y % 4 == 0 then 1 else 0;
    assert y / 100 - (y - 1) / 100 == if y % 100 == 0 then 1 else 0;
    assert y / 400 - (y - 1) / 400 == if y % 400 == 0 then 1 else 0;
  }

  /** The day after a date is the next day number. */
  lemma NextDayOrdinal(d: Date)
    requires ValidDate(d)
    ensures ToOrdinal(NextDay(d)) == ToOrdinal(d) + 1
  {
    if d.day == DaysInMonth(d.year, d.month) && d.month == 12 {
      YearLength(d.year);
    }
  }

  /** The day before a date is the previous day number. */
  lemma PrevDayOrdinal(d: Date)
    requires ValidDate(d)
    ensures ToOrdinal(PrevDay(d)) == ToOrdinal(d) - 1
  {
    PrevDayUndoesNextDay(d);
    NextDayOrdinal(PrevDay(d));
  }

  /** `d + timedelta(days=n)`, one calendar day at a time. */
  function AddDays(d: Date, n: int): (r: Date)
    requires ValidDate(d)
    ensures ValidDate(r)
    decreases if n >= 0 then n else -n
  {
    if n == 0 then d
    else if n > 0 then AddDays(NextDay(d), n - 1)
    else AddDays(PrevDay(d), n + 1)
  }

  /** One step of AddDays forward or back, and the day number it moves by. */
  lemma AddDaysStep(d: Date, n: int)
    requires ValidDate(d)
    ensures n > 0 ==> AddDays(d, n) == AddDays(NextDay(d), n - 1) && ToOrdinal(NextDay(d)) == ToOrdinal(d) + 1
    ensures n < 0 ==> AddDays(d, n) == AddDays(PrevDay(d), n + 1) && ToOrdinal(PrevDay(d)) == ToOrdinal(d) - 1
  {
    NextDayOrdinal(d);
    PrevDayOrdinal(d);
  }

  lemma {:induction false} AddDaysForwardOrdinal(d: Date, n: int)
    requires ValidDate(d) && n >= 0
    ensures ToOrdinal(AddDays(d, n)) == ToOrdinal(d) + n
    decreases n
  {
    if n > 0 {
      AddDaysStep(d, n);
      AddDaysForwardOrdinal(NextDay(d), n - 1);
    }
  }

  lemma {:induction false} AddDaysBackOrdinal(d: Date, n: int)
    requires ValidDate(d) && n <= 0
    ensures ToOrdinal(AddDays(d, n)) == ToOrdinal(d) + n
    decreases -n
  {
    if n < 0 {
      AddDaysStep(d, n);
      AddDaysBackOrdinal(PrevDay(d), n + 1);
    }
  }

  /** Adding n days gives the date whose day number is n more. */
  lemma AddDaysOrdinal(d: Date, n: int)
    requires ValidDate(d)
    ensures ToOrdinal(AddDays(d, n)) == ToOrdinal(d) + n
  {
    if n >= 0 {
      AddDaysForwardOrdinal(d, n);
    } else {
      AddDaysBackOrdinal(d, n);
    }
  }

  lemma {:induction false} AddDaysLastStep(d: Date, n: int)
    requires ValidDate(d)
    ensures n > 0 ==> AddDays(d, n) == NextDay(AddDays(d, n - 1))
    ensures n < 0 ==> AddDays(d, n) == PrevDay(AddDays(d, n + 1))
    decreases if n >= 0 then n else -n
  {
    if n > 1 {
      AddDaysLastStep(NextDay(d), n - 1);
    } else if n < -1 {
      AddDaysLastStep(PrevDay(d), n + 1);
    }
  }

  /** Moving n days forward and then n days back returns to the same date. */
  lemma {:induction false} AddDaysInverse(d: Date, n: int)
    requires ValidDate(d)
    ensures AddDays(AddDays(d, n), -n) == d
    decreases if n >= 0 then n else -n
  {
    if n > 0 {
      var x := AddDays(d, n - 1);
      AddDaysLastStep(d, n);
      PrevDayUndoesNextDay(x);
      assert AddDays(NextDay(x), -n) == AddDays(x, -(n - 1));
      AddDaysInverse(d, n - 1);
    } else if n < 0 {
      var x := AddDays(d, n + 1);
      AddDaysLastStep(d, n);
      PrevDayUndoesNextDay(x);
      assert AddDays(PrevDay(x), -n) == AddDays(x, -(n + 1));
      AddDaysInverse(d, n + 1);
    }
  }

  /**
   * `t + timedelta(minutes=k)`: carries whole days into the date and fails with
   * OverflowError (None) when the result leaves the years Python supports.
   */
  function AddMinutes(t: DateTime, k: int): (r: Option<DateTime>)
    requires ValidDateTime(t)
    ensures r.Some? ==> ValidDateTime(r.value) && InRange(r.value.date)
    ensures r.Some? ==> r.value.hour * 60 + r.value.minute == (t.hour * 60 + t.minute + k) % MinutesPerDay
    ensures r.Some? <==> InRange(AddDays(t.date, (t.hour * 60 + t.minute + k) / MinutesPerDay))
    ensures r.Some? ==> r.value.date == AddDays(t.date, (t.hour * 60 + t.minute + k) / MinutesPerDay)
  {
    var total := t.hour * 60 + t.minute + k;
    var date := AddDays(t.date, total / MinutesPerDay);
    var rem := total % MinutesPerDay;
    if InRange(date) then Some(DateTime(date, rem / 60, rem % 60)) else None
  }

  /** Adding k minutes and then -k minutes gives back the starting date-time. */
  lemma AddMinutesInverse(t: DateTime, k: int)
    requires ValidDateTime(t) && InRange(t.date)
    ensures AddMinutes(t, k).Some? ==> AddMinutes(AddMinutes(t, k).value, -k) == Some(t)
  {
    var total := t.hour * 60 + t.minute + k;
    var days := total / MinutesPerDay;
    var rem := total % MinutesPerDay;
    if AddMinutes(t, k).Some? {
      var u := AddMinutes(t, k).value;
      assert u.hour * 60 + u.minute == rem;
      var total2 := rem - k;
      assert total2 == t.hour * 60 + t.minute - days * MinutesPerDay;
      assert total2 / MinutesPerDay == -days;
      assert total2 % MinutesPerDay == t.hour * 60 + t.minute;
      AddDaysInverse(t.date, days);
    }
  }

  /** The result is exactly k minutes later, counting minutes from the start of the proleptic calendar. */
  lemma AddMinutesOrdinal(t: DateTime, k: int)
    requires ValidDateTime(t)
    ensures AddMinutes(t, k).Some? ==>
      ToOrdinal(AddMinutes(t, k).value.date) * MinutesPerDay + AddMinutes(t, k).value.hour * 60 + AddMinutes(t, k).value.minute
      == ToOrdinal(t.date) * MinutesPerDay + t.hour * 60 + t.minute + k
  {
    var total := t.hour * 60 + t.minute + k;
    AddDaysOrdinal(t.date, total / MinutesPerDay);
  }
}
