/** The calendar arithmetic of `DtDateAdapter` (the abstract adapter's
    `compareDate` and `clampDate`) and of `DtNativeDateAdapter` (`createDate`,
    `getNumDaysInMonth`, `addCalendarMonths`, `addCalendarYears`,
    `addCalendarDays`, `getFirstDayOfWeek`), with a date as an explicit
    year / month (0..11) / day-of-month triple in the proleptic Gregorian
    calendar, which is the calendar the JavaScript `Date` object uses. */
module DateAdapter {
  import opened Common

  datatype Date = Date(year: int, month: int, day: int)

  /** The exceptions the adapter throws. */
  datatype JsError =
    | InvalidMonthIndex(month: int)
    | InvalidDate(date: int)
    | InvalidDateForMonth(date: int, month: int)
    | TypeError
    | NotImplemented

  /** A call either returns a value or throws. */
  datatype Attempt<T> = Returned(value: T) | Threw(error: JsError)

  // ---------------------------------------------------------------------
  // The Gregorian calendar
  // ---------------------------------------------------------------------

  predicate IsLeapYear(y: int) {
    y % 4 == 0 && (y % 100 != 0 || y % 400 == 0)
  }

  /** Length of month `month` (0 = January) of year `year`. */
  function DaysInMonth(year: int, month: int): (n: int)
    requires 0 <= month < 12
    ensures 28 <= n <= 31
    ensures n == 29 <==> month == 1 && IsLeapYear(year)
    ensures n == 28 <==> month == 1 && !IsLeapYear(year)
    ensures n == 30 <==> month in {3, 5, 8, 10}
  {
    if month == 1 then (if IsLeapYear(year) then 29 else 28)
    else if month == 3 || month == 5 || month == 8 || month == 10 then 30
    else 31
  }

  /** The fields a JavaScript `Date` reports: a month index in 0..11 and a day
      that exists in that month. */
  predicate IsValid(d: Date) {
    0 <= d.month < 12 && 1 <= d.day <= DaysInMonth(d.year, d.month)
  }

  function Min(a: int, b: int): int {
    if a <= b then a else b
  }

  /** Days from 1 January of year 0 to 1 January of year `y` (negative for
      years before 0): 365 per year plus one per leap year in between. */
  function DaysBeforeYear(y: int): int {
    365 * y + (y + 3) / 4 - (y + 99) / 100 + (y + 399) / 400
  }

  /** Days from 1 January to the first day of month `m` of year `y`. */
  function DaysBeforeMonth(y: int, m: int): int
    requires 0 <= m < 12
  {
    [0, 31, 59, 90, 120, 151, 181, 212, 243, 273, 304, 334][m]
      + (if m >= 2 && IsLeapYear(y) then 1 else 0)
  }

  /** Day number of the first day of month `m` of year `y`. */
  function MonthStart(y: int, m: int): int
    requires 0 <= m < 12
  {
    DaysBeforeYear(y) + DaysBeforeMonth(y, m)
  }

  /** Day number of a date: consecutive days have consecutive numbers. */
  function DayNumber(d: Date): int
    requires 0 <= d.month < 12
  {
    MonthStart(d.year, d.month) + d.day - 1
  }

  function NextYear(y: int, m: int): int { if m == 11 then y + 1 else y }
  function NextMonth(m: int): int { if m == 11 then 0 else m + 1 }
  function PrevYear(y: int, m: int): int { if m == 0 then y - 1 else y }
  function PrevMonth(m: int): int { if m == 0 then 11 else m - 1 }

  /** A year has 365 days, or 366 when it is a leap year. */
  lemma YearLength(y: int)
    ensures DaysBeforeYear(y + 1) == DaysBeforeYear(y) + (if IsLeapYear(y) then 366 else 365)
  {
    assert (y + 4) / 4 - (y + 3) / 4 == if y % 4 == 0 then 1 else 0;
    assert (y + 100) / 100 - (y + 99) / 100 == if y % 100 == 0 then 1 else 0;
    assert (y + 400) / 400 - (y + 399) / 400 == if y % 400 == 0 then 1 else 0;
  }

  /** The month after month `m` of year `y` starts `DaysInMonth(y, m)` days later. */
  lemma NextMonthStart(y: int, m: int)
    requires 0 <= m < 12
    ensures MonthStart(NextYear(y, m), NextMonth(m)) == MonthStart(y, m) + DaysInMonth(y, m)
  {
    if m == 11 {
      YearLength(y);
    }
  }

  lemma DaysBeforeYearMonotone(a: int, b: int)
    requires a <= b
    ensures DaysBeforeYear(a) <= DaysBeforeYear(b)
    decreases b - a
  {
    if a < b {
      YearLength(b - 1);
      DaysBeforeYearMonotone(a, b - 1);
    }
  }

  /** Every day of a year lies before the first day of the next year. */
  lemma DayNumberWithinYear(d: Date)
    requires IsValid(d)
    ensures DaysBeforeYear(d.year) <= DayNumber(d) < DaysBeforeYear(d.year + 1)
  {
    YearLength(d.year);
  }

  // ---------------------------------------------------------------------
  // Overflowing construction: `new Date(year, month, date)`
  // ---------------------------------------------------------------------

  /** Walks an out-of-range day of month `m` of year `y` into the month it
      falls in, a month at a time, as the `Date` constructor does. */
  function NormalizeDay(y: int, m: int, d: int): (r: Date)
    requires 0 <= m < 12
    ensures IsValid(r)
    ensures 1 <= d <= DaysInMonth(y, m) ==> r == Date(y, m, d)
    decreases if d < 1 then 1 - d else 0, if d < 1 then 0 else d
  {
    if d < 1 then
      NormalizeDay(PrevYear(y, m), PrevMonth(m), d + DaysInMonth(PrevYear(y, m), PrevMonth(m)))
    else if d > DaysInMonth(y, m) then
      NormalizeDay(NextYear(y, m), NextMonth(m), d - DaysInMonth(y, m))
    else
      Date(y, m, d)
  }

  /** The date `NormalizeDay` reaches is the `d`-th day counted from the first
      of month `m` (day 0 being the day before it). */
  lemma {:induction false} NormalizeDayNumber(y: int, m: int, d: int)
    requires 0 <= m < 12
    ensures DayNumber(NormalizeDay(y, m, d)) == MonthStart(y, m) + d - 1
    decreases if d < 1 then 1 - d else 0, if d < 1 then 0 else d
  {
    if d < 1 {
      NextMonthStart(PrevYear(y, m), PrevMonth(m));
      NormalizeDayNumber(PrevYear(y, m), PrevMonth(m), d + DaysInMonth(PrevYear(y, m), PrevMonth(m)));
    } else if d > DaysInMonth(y, m) {
      NextMonthStart(y, m);
      NormalizeDayNumber(NextYear(y, m), NextMonth(m), d - DaysInMonth(y, m));
    }
  }

  /** `createDateWithOverflow(year, month, date)` for years where its
      two-digit-year correction is not taken: the month is first brought into
      0..11 (carrying whole years), then the day is counted from the first of
      that month. Days 0 and below fall into earlier months. */
  function CreateDateWithOverflow(year: int, month: int, date: int): (r: Date)
    ensures IsValid(r)
  {
    NormalizeDay(year + month / 12, month % 12, date)
  }

  lemma CreateDateWithOverflowNumber(year: int, month: int, date: int)
    ensures DayNumber(CreateDateWithOverflow(year, month, date))
      == MonthStart(year + month / 12, month % 12) + date - 1
  {
    NormalizeDayNumber(year + month / 12, month % 12, date);
  }

  /** `createDateWithOverflow` as written: for a year in 0..99 it evaluates
      `this.getYear(...)` inside a free function, where `this` is not the
      adapter, so the call throws a `TypeError`. */
  function CreateDateWithOverflowAsWritten(year: int, month: int, date: int): (r: Attempt<Date>)
    ensures r.Threw? <==> 0 <= year < 100
    ensures r.Returned? ==> r.value == CreateDateWithOverflow(year, month, date)
  {
    if 0 <= year < 100 then Threw(TypeError)
    else Returned(CreateDateWithOverflow(year, month, date))
  }

  /** For example the `Date` for 1 January of year 50 cannot be built. */
  lemma CreateDateWithOverflowAsWrittenFailsForYear50()
    ensures CreateDateWithOverflowAsWritten(50, 0, 1) == Threw(TypeError)
    ensures CreateDateWithOverflow(50, 0, 1) == Date(50, 0, 1)
  {
  }

  /** Two valid dates with the same day number are the same date, and day
      numbers grow with the calendar order. */
  lemma DayNumberOrder(a: Date, b: Date)
    requires IsValid(a) && IsValid(b)
    ensures Before(a, b) ==> DayNumber(a) < DayNumber(b)
    ensures DayNumber(a) == DayNumber(b) ==> a == b
  {
    if a.year != b.year {
      var (lo, hi) := if a.year < b.year then (a, b) else (b, a);
      DayNumberWithinYear(lo);
      DayNumberWithinYear(hi);
      DaysBeforeYearMonotone(lo.year + 1, hi.year);
    }
  }

  /** A valid date is recovered from its own fields by the overflowing
      constructor. */
  lemma CreateDateWithOverflowOfValid(d: Date)
    requires IsValid(d)
    ensures CreateDateWithOverflow(d.year, d.month, d.day) == d
  {
    MonthIndexInRange(d.month);
  }

  // ---------------------------------------------------------------------
  // DtDateAdapter.compareDate and clampDate
  // ---------------------------------------------------------------------

  /** Calendar order of dates: by year, then month, then day. */
  predicate Before(a: Date, b: Date) {
    a.year < b.year
    || (a.year == b.year && (a.month < b.month || (a.month == b.month && a.day < b.day)))
  }

  /** `compareDate(first, second)`: the first non-zero difference of year,
      month and day, or 0. */
  function CompareDate(first: Date, second: Date): (r: int)
    ensures r < 0 <==> Before(first, second)
    ensures r > 0 <==> Before(second, first)
    ensures r == 0 <==> first == second
  {
    var years := first.year - second.year;
    var months := first.month - second.month;
    if years != 0 then years
    else if months != 0 then months
    else first.day - second.day
  }

  /** For valid dates, comparing fields agrees with comparing day numbers. */
  lemma CompareDateAgreesWithDayNumber(a: Date, b: Date)
    requires IsValid(a) && IsValid(b)
    ensures CompareDate(a, b) < 0 <==> DayNumber(a) < DayNumber(b)
    ensures CompareDate(a, b) == 0 <==> DayNumber(a) == DayNumber(b)
  {
    DayNumberOrder(a, b);
    DayNumberOrder(b, a);
  }

  /** The bounds a clamp is asked to respect are consistent: no minimum lies
      after the maximum. */
  predicate OrderedBounds(min: Option<Date>, max: Option<Date>) {
    min.None? || max.None? || CompareDate(min.value, max.value) <= 0
  }

  predicate WithinBounds(d: Date, min: Option<Date>, max: Option<Date>) {
    (min.None? || CompareDate(d, min.value) >= 0) && (max.None? || CompareDate(d, max.value) <= 0)
  }

  /** `clampDate(date, min, max)`: `min` when the date is earlier than a given
      minimum, otherwise `max` when it is later than a given maximum,
      otherwise the date itself. */
  function ClampDate(date: Date, min: Option<Date>, max: Option<Date>): (r: Date)
    ensures r == date || (min.Some? && r == min.value) || (max.Some? && r == max.value)
    ensures OrderedBounds(min, max) ==> WithinBounds(r, min, max)
    ensures WithinBounds(date, min, max) ==> r == date
    ensures min.Some? && Before(date, min.value) ==> r == min.value
    ensures (min.None? || !Before(date, min.value)) && max.Some? && Before(max.value, date) ==> r == max.value
  {
    if min.Some? && CompareDate(date, min.value) < 0 then min.value
    else if max.Some? && CompareDate(date, max.value) > 0 then max.value
    else date
  }

  /** With consistent bounds, clamping an already clamped date changes
      nothing; with a minimum after the maximum it can move it a second time. */
  lemma ClampDateIdempotent(date: Date, min: Option<Date>, max: Option<Date>)
    requires OrderedBounds(min, max)
    ensures ClampDate(ClampDate(date, min, max), min, max) == ClampDate(date, min, max)
  {
  }

  lemma ClampDateNotIdempotentWithCrossedBounds()
    ensures var min, max := Some(Date(2020, 5, 1)), Some(Date(2020, 0, 1));
      ClampDate(ClampDate(Date(2019, 0, 1), min, max), min, max) != ClampDate(Date(2019, 0, 1), min, max)
  {
  }

  /** Clamping valid dates gives a valid date. */
  lemma ClampDateValid(date: Date, min: Option<Date>, max: Option<Date>)
    requires IsValid(date)
    requires min.Some? ==> IsValid(min.value)
    requires max.Some? ==> IsValid(max.value)
    ensures IsValid(ClampDate(date, min, max))
  {
  }

  /** `DtNativeDateAdapter` `implements` rather than `extends` `DtDateAdapter`
      and declares its own `compareDate`, `clampDate` and `setLocale`, which
      throw "Method not implemented.": as written, every comparison and clamp
      through the native adapter throws. */
  function NativeCompareDate(first: Date, second: Date): (r: Attempt<int>)
    ensures r.Threw? && r.error == NotImplemented
  {
    Threw(NotImplemented)
  }

  function NativeClampDate(date: Date, min: Option<Date>, max: Option<Date>): (r: Attempt<Date>)
    ensures r.Threw? && r.error == NotImplemented
  {
    Threw(NotImplemented)
  }

  /** The native adapter's clamp fails on the very input the abstract
      adapter's clamp answers. */
  lemma NativeClampDateDiffers(date: Date, min: Option<Date>, max: Option<Date>)
    ensures NativeClampDate(date, min, max) != Returned(ClampDate(date, min, max))
    ensures NativeCompareDate(date, date) != Returned(CompareDate(date, date))
  {
  }

  /** The locale state of an adapter: `setLocale` stores the new locale and
      notifies the `localeChanges` stream once. */
  class DtDateAdapter {
    var locale: string
    /** How many notifications `localeChanges` has emitted. */
    var localeChanges: nat

    constructor(initial: string)
      ensures locale == initial && localeChanges == 0
    {
      locale := initial;
      localeChanges := 0;
    }

    method SetLocale(newLocale: string)
      modifies this
      ensures locale == newLocale
      ensures localeChanges == old(localeChanges) + 1
    {
      locale := newLocale;
      localeChanges := localeChanges + 1;
    }

    /** `setLocale` on a `DtNativeDateAdapter` as written: it throws "Method not
        implemented." and neither the locale nor the stream changes. */
    method NativeSetLocale(newLocale: string) returns (r: Attempt<()>)
      ensures r.Threw? && r.error == NotImplemented
    {
      return Threw(NotImplemented);
    }
  }

  // ---------------------------------------------------------------------
  // DtNativeDateAdapter
  // ---------------------------------------------------------------------

  /** `createDate(year, month, date)` as written: it rejects a month index
      outside 0..11 and a day below 1, then calls the free
      `createDateWithOverflow` (which throws for years 0..99), and otherwise
      rejects only a result whose month differs from `month`. */
  function CreateDateAsWritten(year: int, month: int, date: int): (r: Attempt<Date>)
    ensures month < 0 || month > 11 ==> r == Threw(InvalidMonthIndex(month))
    ensures 0 <= month <= 11 && date < 1 ==> r == Threw(InvalidDate(date))
    ensures 0 <= month <= 11 && date >= 1 && 0 <= year < 100 ==> r == Threw(TypeError)
    ensures 0 <= month <= 11 && 1 <= date <= DaysInMonth(year, month) && !(0 <= year < 100) ==>
      r == Returned(Date(year, month, date))
    ensures 0 <= month <= 11 && date > DaysInMonth(year, month) && !(0 <= year < 100) ==>
      (r.Returned? <==> CreateDateWithOverflow(year, month, date).month == month)
    ensures r.Returned? ==> r.value == CreateDateWithOverflow(year, month, date)
  {
    if month < 0 || month > 11 then Threw(InvalidMonthIndex(month))
    else if date < 1 then Threw(InvalidDate(date))
    else match CreateDateWithOverflowAsWritten(year, month, date)
      case Threw(e) => Threw(e)
      case Returned(result) =>
        if result.month != month then Threw(InvalidDateForMonth(date, month))
        else Returned(result)
  }

  function DaysInYear(y: int): int {
    if IsLeapYear(y) then 366 else 365
  }

  /** A day that overflows by a whole year lands in the same month one year
      later and passes that check: day 366 of January 2017 (day 367 of
      January in a leap year) is accepted as 1 January of the next year,
      although the adapter promises not to allow overflow. (For years 0..99
      the call throws before that check.) */
  lemma CreateDateAsWrittenAcceptsOverflow(y: int)
    ensures !(0 <= y < 100) ==> CreateDateAsWritten(y, 0, DaysInYear(y) + 1) == Returned(Date(y + 1, 0, 1))
    ensures CreateDate(y, 0, DaysInYear(y) + 1).Threw?
  {
    OverflowByAYear(y);
  }

  lemma OverflowByAYear(y: int)
    ensures CreateDateWithOverflow(y, 0, DaysInYear(y) + 1) == Date(y + 1, 0, 1)
  {
    var r := CreateDateWithOverflow(y, 0, DaysInYear(y) + 1);
    CreateDateWithOverflowNumber(y, 0, DaysInYear(y) + 1);
    YearLength(y);
    DayNumberOrder(r, Date(y + 1, 0, 1));
  }

  /** `createDate(year, month, date)`: the date itself when it exists,
      otherwise the exception for the first rule it breaks (month index,
      day below 1, day beyond the month's length). */
  function CreateDate(year: int, month: int, date: int): (r: Attempt<Date>)
    ensures r.Returned? <==> IsValid(Date(year, month, date))
    ensures r.Returned? ==> r.value == Date(year, month, date)
    ensures month < 0 || month > 11 ==> r == Threw(InvalidMonthIndex(month))
    ensures 0 <= month <= 11 && date < 1 ==> r == Threw(InvalidDate(date))
    ensures 0 <= month <= 11 && date > DaysInMonth(year, month) ==> r == Threw(InvalidDateForMonth(date, month))
  {
    if month < 0 || month > 11 then Threw(InvalidMonthIndex(month))
    else if date < 1 then Threw(InvalidDate(date))
    else if date > DaysInMonth(year, month) then Threw(InvalidDateForMonth(date, month))
    else Returned(CreateDateWithOverflow(year, month, date))
  }

  /** `getNumDaysInMonth(date)`: the day of "day 0 of the next month", which
      is the Gregorian length of the date's month. */
  function GetNumDaysInMonth(date: Date): (r: int)
    ensures 0 <= date.month < 12 ==> r == DaysInMonth(date.year, date.month)
  {
    if 0 <= date.month < 12 then
      LastDayOfMonth(date.year, date.month);
      CreateDateWithOverflow(date.year, date.month + 1, 0).day
    else
      CreateDateWithOverflow(date.year, date.month + 1, 0).day
  }

  /** Day 0 of the next month is the last day of this month. */
  lemma LastDayOfMonth(y: int, m: int)
    requires 0 <= m < 12
    ensures CreateDateWithOverflow(y, m + 1, 0) == Date(y, m, DaysInMonth(y, m))
  {
    var r := CreateDateWithOverflow(y, m + 1, 0);
    assert (y + (m + 1) / 12, (m + 1) % 12) == (NextYear(y, m), NextMonth(m));
    CreateDateWithOverflowNumber(y, m + 1, 0);
    NextMonthStart(y, m);
    DayNumberOrder(r, Date(y, m, DaysInMonth(y, m)));
  }

  /** JavaScript's `%`, whose result takes the sign of the dividend. */
  function JsRemainder(a: int, b: int): (r: int)
    requires b > 0
    ensures -b < r < b
    ensures a >= 0 ==> r == a % b
    ensures a <= 0 ==> r <= 0
  {
    if a >= 0 then a % b else -((-a) % b)
  }

  /** `((m % 12) + 12) % 12` with JavaScript's `%` is the month index of `m`. */
  lemma JsMonthIndex(m: int)
    ensures JsRemainder(JsRemainder(m, 12) + 12, 12) == m % 12
  {
  }

  /** `addCalendarMonths(date, months)`: move to the same day `months` months
      on; when that day overflows into the following month, step back to day 0
      of that month, the last day of the intended one. */
  function AddCalendarMonths(date: Date, months: int): (r: Date)
    ensures IsValid(r)
  {
    var newDate := CreateDateWithOverflow(date.year, date.month + months, date.day);
    if newDate.month != JsRemainder(JsRemainder(date.month + months, 12) + 12, 12) then
      CreateDateWithOverflow(newDate.year, newDate.month, 0)
    else
      newDate
  }

  /** A day past the end of a month lands early in the next month, and day 0
      of that next month is the last day of the first. */
  lemma OverflowIntoNextMonth(y: int, m: int, day: int)
    requires 0 <= m < 12 && DaysInMonth(y, m) < day <= 31
    ensures NormalizeDay(y, m, day) == Date(NextYear(y, m), NextMonth(m), day - DaysInMonth(y, m))
    ensures CreateDateWithOverflow(NextYear(y, m), NextMonth(m), 0) == Date(y, m, DaysInMonth(y, m))
  {
    var ny, nm := NextYear(y, m), NextMonth(m);
    assert ny + nm / 12 == ny && nm % 12 == nm;
    assert (PrevYear(ny, nm), PrevMonth(nm)) == (y, m);
  }

  /** The target month is `month + months` with whole years carried, and the day
      is kept unless the target month is shorter, in which case it is that
      month's last day. */
  lemma AddCalendarMonthsResult(date: Date, months: int)
    requires IsValid(date)
    ensures var y, m := date.year + (date.month + months) / 12, (date.month + months) % 12;
      AddCalendarMonths(date, months) == Date(y, m, Min(date.day, DaysInMonth(y, m)))
  {
    var y, m := date.year + (date.month + months) / 12, (date.month + months) % 12;
    JsMonthIndex(date.month + months);
    if date.day > DaysInMonth(y, m) {
      AddCalendarMonthsOverflow(date, months, y, m);
    } else {
      AddCalendarMonthsFits(date, months, y, m);
    }
  }

  lemma AddCalendarMonthsFits(date: Date, months: int, y: int, m: int)
    requires IsValid(date)
    requires y == date.year + (date.month + months) / 12 && m == (date.month + months) % 12
    requires JsRemainder(JsRemainder(date.month + months, 12) + 12, 12) == m
    requires date.day <= DaysInMonth(y, m)
    ensures AddCalendarMonths(date, months) == Date(y, m, date.day)
  {
    assert CreateDateWithOverflow(date.year, date.month + months, date.day) == NormalizeDay(y, m, date.day);
  }

  lemma AddCalendarMonthsOverflow(date: Date, months: int, y: int, m: int)
    requires IsValid(date)
    requires y == date.year + (date.month + months) / 12 && m == (date.month + months) % 12
    requires JsRemainder(JsRemainder(date.month + months, 12) + 12, 12) == m
    requires date.day > DaysInMonth(y, m)
    ensures AddCalendarMonths(date, months) == Date(y, m, DaysInMonth(y, m))
  {
    var newDate := CreateDateWithOverflow(date.year, date.month + months, date.day);
    assert newDate == NormalizeDay(y, m, date.day);
    OverflowIntoNextMonth(y, m, date.day);
  }

  /** 31 January 2017 plus one month is 28 February 2017. */
  lemma JanuaryThirtyFirstPlusOneMonth()
    ensures AddCalendarMonths(Date(2017, 0, 31), 1) == Date(2017, 1, 28)
  {
    AddCalendarMonthsResult(Date(2017, 0, 31), 1);
  }

  /** `addCalendarYears(date, years)`: twelve months per year. */
  function AddCalendarYears(date: Date, years: int): (r: Date)
    ensures IsValid(r)
  {
    AddCalendarMonths(date, years * 12)
  }

  /** Adding years keeps the month and keeps the day unless that month is
      shorter in the target year (29 February in a common year). */
  lemma AddCalendarYearsResult(date: Date, years: int)
    requires IsValid(date)
    ensures AddCalendarYears(date, years)
      == Date(date.year + years, date.month, Min(date.day, DaysInMonth(date.year + years, date.month)))
  {
    AddCalendarMonthsResult(date, years * 12);
    assert (date.month + years * 12) / 12 == years;
    assert (date.month + years * 12) % 12 == date.month;
  }

  /** 29 February 2016 plus one year is 28 February 2017. */
  lemma LeapDayPlusOneYear()
    ensures AddCalendarYears(Date(2016, 1, 29), 1) == Date(2017, 1, 28)
  {
    AddCalendarYearsResult(Date(2016, 1, 29), 1);
  }

  /** `addCalendarDays(date, days)`: the day of month moved by `days`, with
      overflow carried into later or earlier months and years. */
  function AddCalendarDays(date: Date, days: int): (r: Date)
    ensures IsValid(r)
  {
    CreateDateWithOverflow(date.year, date.month, date.day + days)
  }

  /** Adding days moves the day number by exactly that many days. */
  lemma AddCalendarDaysShifts(date: Date, days: int)
    requires IsValid(date)
    ensures IsValid(AddCalendarDays(date, days))
    ensures DayNumber(AddCalendarDays(date, days)) == DayNumber(date) + days
  {
    MonthIndexInRange(date.month);
    CreateDateWithOverflowNumber(date.year, date.month, date.day + days);
  }

  /** A month index in 0..11 stays in its year. */
  lemma MonthIndexInRange(m: int)
    requires 0 <= m < 12
    ensures m / 12 == 0 && m % 12 == m
  {
  }

  /** Adding days and then subtracting them returns the original date. */
  lemma AddCalendarDaysRoundTrip(date: Date, days: int)
    requires IsValid(date)
    ensures AddCalendarDays(AddCalendarDays(date, days), -days) == date
  {
    var there := AddCalendarDays(date, days);
    AddCalendarDaysShifts(date, days);
    AddCalendarDaysShifts(there, -days);
    DayNumberOrder(AddCalendarDays(there, -days), date);
  }

  /** Adding days in two steps is adding their sum. */
  lemma AddCalendarDaysCompose(date: Date, a: int, b: int)
    requires IsValid(date)
    ensures AddCalendarDays(AddCalendarDays(date, a), b) == AddCalendarDays(date, a + b)
  {
    AddCalendarDaysShifts(date, a);
    AddCalendarDaysShifts(AddCalendarDays(date, a), b);
    AddCalendarDaysShifts(date, a + b);
    DayNumberOrder(AddCalendarDays(AddCalendarDays(date, a), b), AddCalendarDays(date, a + b));
  }

  /** `getDayOfWeek(date)`: 0 for Sunday up to 6 for Saturday; 1 January of
      year 0 was a Saturday. */
  function GetDayOfWeek(date: Date): (r: int)
    requires 0 <= date.month < 12
    ensures 0 <= r < 7
  {
    (DayNumber(date) + 6) % 7
  }

  /** The next day is the next day of the week, and a week later is the same day
      of the week. */
  lemma GetDayOfWeekAdvances(date: Date)
    requires IsValid(date)
    ensures GetDayOfWeek(AddCalendarDays(date, 1)) == (GetDayOfWeek(date) + 1) % 7
    ensures GetDayOfWeek(AddCalendarDays(date, 7)) == GetDayOfWeek(date)
  {
    AddCalendarDaysShifts(date, 1);
    AddCalendarDaysShifts(date, 7);
    WeekdayStep(DayNumber(date) + 6);
  }

  lemma WeekdayStep(x: int)
    ensures (x + 1) % 7 == (x % 7 + 1) % 7
    ensures (x + 7) % 7 == x % 7
  {
    var q, r := x / 7, x % 7;
    assert x == 7 * q + r && 0 <= r < 7;
    assert x + 7 == 7 * (q + 1) + r;
    if r < 6 {
      assert x + 1 == 7 * q + (r + 1);
    } else {
      assert x + 1 == 7 * (q + 1);
    }
  }

  /** `getFirstDayOfWeek()`: weeks start on Monday, and 2 January 2017 was one. */
  function GetFirstDayOfWeek(): (r: int)
    ensures r == GetDayOfWeek(Date(2017, 0, 2))
  {
    assert DaysBeforeYear(2017) == 736695;
    1
  }

  /** 1 January 1970 was a Thursday. */
  lemma EpochIsThursday()
    ensures GetDayOfWeek(Date(1970, 0, 1)) == 4
  {
    assert DaysBeforeYear(1970) == 719528;
  }
}
