/**
  Proleptic Gregorian calendar arithmetic: the part of java.util.GregorianCalendar and
  java.time.LocalDate that the date utilities rely on. Months are numbered from 0
  (January) to 11 (December), as java.util.Calendar numbers them; days from 1.
  Day numbers count days since 1970-01-01 (the epoch day of LocalDate).
*/
module Gregorian {

  /** Days from 0001-01-01 to 1970-01-01. */
  const UnixEpochOrdinal := 719162

  /** Days in one 400-year cycle of the Gregorian calendar. */
  const DaysPer400Years := 146097

  predicate IsLeapYear(y: int) {
    y % 4 == 0 && (y % 100 != 0 || y % 400 == 0)
  }

  function DaysInYear(y: int): int {
    if IsLeapYear(y) then 366 else 365
  }

  function DaysInMonth(y: int, m: int): (n: int)
    requires 0 <= m < 12
    ensures 28 <= n <= 31
    ensures m == 1 ==> (n == 29 <==> IsLeapYear(y))
  {
    if m == 1 then (if IsLeapYear(y) then 29 else 28)
    else if m == 3 || m == 5 || m == 8 || m == 10 then 30
    else 31
  }

  /** Days of year y that lie in the months before month m. */
  function DaysBeforeMonth(y: int, m: int): int
    requires 0 <= m <= 12
  {
    var common :=
      if m == 0 then 0 else if m == 1 then 31 else if m == 2 then 59
      else if m == 3 then 90 else if m == 4 then 120 else if m == 5 then 151
      else if m == 6 then 181 else if m == 7 then 212 else if m == 8 then 243
      else if m == 9 then 273 else if m == 10 then 304 else if m == 11 then 334
      else 365;
    common + (if m >= 2 && IsLeapYear(y) then 1 else 0)
  }

  /** Days from 0001-01-01 to 1 January of year y (negative before year 1). */
  function DaysBeforeYear(y: int): int {
    var x := y - 1;
    365 * x + x / 4 - x / 100 + x / 400
  }

  datatype CivilDate = CivilDate(year: int, month: int, day: int)

  /** A date that exists in the calendar (no lenient carry needed). */
  predicate Valid(c: CivilDate) {
    0 <= c.month < 12 && 1 <= c.day <= DaysInMonth(c.year, c.month)
  }

  /** The day number (days since 1970-01-01) of c; c.day may be out of range. */
  function EpochDay(c: CivilDate): int
    requires 0 <= c.month < 12
  {
    DaysBeforeYear(c.year) - UnixEpochOrdinal + DaysBeforeMonth(c.year, c.month) + c.day - 1
  }

  /**
    Lenient day number, as java.util.GregorianCalendar computes it: a month outside
    0..11 carries into the year (floor division), then the day is counted from the
    first of that month, so day 0 is the last day of the month before.
  */
  function LenientEpochDay(y: int, m: int, d: int): int {
    EpochDay(CivilDate(y + m / 12, m % 12, 1)) + d - 1
  }

  /** For a month in 0..11 the lenient day number is the day number of the date as written. */
  lemma LenientInRange(y: int, m: int, d: int)
    requires 0 <= m < 12
    ensures LenientEpochDay(y, m, d) == EpochDay(CivilDate(y, m, d))
  {
    assert m / 12 == 0 && m % 12 == m;
  }

  // ---------------------------------------------------------------------------
  // Year and month steps

  lemma YearStep(y: int)
    ensures DaysBeforeYear(y + 1) == DaysBeforeYear(y) + DaysInYear(y)
  {
    CountStep(y, 4);
    CountStep(y, 100);
    CountStep(y, 400);
    DivisibilityChain(y);
  }

  /** Every multiple of 400 is a multiple of 100, and every multiple of 100 a multiple of 4. */
  lemma DivisibilityChain(y: int)
    ensures y % 400 == 0 ==> y % 100 == 0
    ensures y % 100 == 0 ==> y % 4 == 0
  {
    if y % 400 == 0 {
      MultipleOfHundred(y / 400);
    }
    if y % 100 == 0 {
      MultipleOfFour(y / 100);
    }
  }

  lemma MultipleOfHundred(k: int)
    ensures (400 * k) % 100 == 0
  {
    assert 400 * k == 100 * (4 * k) + 0;
  }

  lemma MultipleOfFour(k: int)
    ensures (100 * k) % 4 == 0
  {
    assert 100 * k == 4 * (25 * k) + 0;
  }

  /** Multiples of k up to y: one more than up to y - 1 exactly when k divides y. */
  lemma CountStep(y: int, k: int)
    requires k == 4 || k == 100 || k == 400
    ensures y / k == (y - 1) / k + (if y % k == 0 then 1 else 0)
  {
    var q, r := (y - 1) / k, (y - 1) % k;
    assert y - 1 == q * k + r && 0 <= r < k;
    if r == k - 1 {
      assert y == (q + 1) * k + 0;
    } else {
      assert y == q * k + (r + 1);
    }
  }

  lemma MonthStep(y: int, m: int)
    requires 0 <= m < 12
    ensures DaysBeforeMonth(y, m + 1) == DaysBeforeMonth(y, m) + DaysInMonth(y, m)
  {
  }

  lemma DaysBeforeMonthYear(y: int)
    ensures DaysBeforeMonth(y, 12) == DaysInYear(y)
  {
  }

  /** Bounds that locate DaysBeforeYear(y) near (y - 1) * 146097 / 400. */
  lemma DaysBeforeYearBounds(y: int)
    ensures DaysPer400Years * (y - 1) - 699 <= 400 * DaysBeforeYear(y) <= DaysPer400Years * (y - 1) + 396
  {
    var x := y - 1;
    assert x - 3 <= 4 * (x / 4) <= x;
    assert x - 99 <= 100 * (x / 100) <= x;
    assert x - 399 <= 400 * (x / 400) <= x;
  }

  /** Years that come later start later: a < b implies year b starts no earlier than year a ends. */
  lemma {:induction false} YearsOrdered(a: int, b: int)
    requires a < b
    ensures DaysBeforeYear(a + 1) <= DaysBeforeYear(b)
  {
    if b > a + 1 {
      DaysBeforeYearBounds(a + 1);
      DaysBeforeYearBounds(b);
    }
  }

  /** Months that come later in a year start later. */
  lemma MonthsOrdered(y: int, a: int, b: int)
    requires 0 <= a < b <= 12
    ensures DaysBeforeMonth(y, a + 1) <= DaysBeforeMonth(y, b)
  {
  }

  // ---------------------------------------------------------------------------
  // From a day number back to the calendar date

  /** The year containing the day with ordinal n (days since 0001-01-01). */
  function YearOfOrdinal(n: int): (y: int)
    ensures DaysBeforeYear(y) <= n < DaysBeforeYear(y + 1)
  {
    var y0 := (400 * n) / DaysPer400Years + 1;
    DaysBeforeYearBounds(y0);
    DaysBeforeYearBounds(y0 + 2);
    if DaysBeforeYear(y0 + 1) <= n then y0 + 1 else y0
  }

  /** The month (at most m) containing day doy of year y, counting days of the year from 0. */
  function FindMonth(y: int, doy: int, m: int): (r: int)
    requires 0 <= m < 12 && 0 <= doy < DaysBeforeMonth(y, m + 1)
    ensures 0 <= r <= m
    ensures DaysBeforeMonth(y, r) <= doy < DaysBeforeMonth(y, r + 1)
    decreases m
  {
    if DaysBeforeMonth(y, m) <= doy then m else FindMonth(y, doy, m - 1)
  }

  /** Every day number is the day number of some existing date: found by year, then by month. */
  lemma DateOfEveryDay(e: int)
    ensures exists c :: Valid(c) && EpochDay(c) == e
  {
    var n := e + UnixEpochOrdinal;
    var y := YearOfOrdinal(n);
    var doy := n - DaysBeforeYear(y);
    YearStep(y);
    DaysBeforeMonthYear(y);
    var m := FindMonth(y, doy, 11);
    MonthStep(y, m);
    var c := CivilDate(y, m, doy - DaysBeforeMonth(y, m) + 1);
    assert Valid(c) && EpochDay(c) == e;
  }

  /** The calendar date of day number e (LocalDate.ofEpochDay): the one existing date with that day number. */
  function CivilFromEpochDay(e: int): (c: CivilDate)
    ensures Valid(c) && EpochDay(c) == e
  {
    DateOfEveryDay(e);
    EpochDayUnique();
    var c :| Valid(c) && EpochDay(c) == e; c
  }

  /** No two existing dates share a day number. */
  lemma EpochDayUnique()
    ensures forall a, b :: Valid(a) && Valid(b) && EpochDay(a) == EpochDay(b) ==> a == b
  {
    forall a, b | Valid(a) && Valid(b) && EpochDay(a) == EpochDay(b)
      ensures a == b
    {
      EpochDayInjective(a, b);
    }
  }

  /** An existing date lies within its own year. */
  lemma DayWithinItsYear(c: CivilDate)
    requires Valid(c)
    ensures DaysBeforeYear(c.year) <= EpochDay(c) + UnixEpochOrdinal < DaysBeforeYear(c.year + 1)
  {
    YearStep(c.year);
    MonthStep(c.year, c.month);
    if c.month < 11 {
      MonthsOrdered(c.year, c.month, 12);
    }
    DaysBeforeMonthYear(c.year);
  }

  /** An existing date lies within its own month of the year. */
  lemma DayWithinItsMonth(c: CivilDate)
    requires Valid(c)
    ensures DaysBeforeMonth(c.year, c.month) <= EpochDay(c) + UnixEpochOrdinal - DaysBeforeYear(c.year)
            < DaysBeforeMonth(c.year, c.month + 1)
  {
    MonthStep(c.year, c.month);
  }

  /** Distinct existing dates have distinct day numbers. */
  lemma EpochDayInjective(a: CivilDate, b: CivilDate)
    requires Valid(a) && Valid(b) && EpochDay(a) == EpochDay(b)
    ensures a == b
  {
    DayWithinItsYear(a);
    DayWithinItsYear(b);
    if b.year < a.year {
      YearsOrdered(b.year, a.year);
    } else if a.year < b.year {
      YearsOrdered(a.year, b.year);
    }
    DayWithinItsMonth(a);
    DayWithinItsMonth(b);
    if b.month < a.month {
      MonthsOrdered(a.year, b.month, a.month);
    } else if a.month < b.month {
      MonthsOrdered(a.year, a.month, b.month);
    }
  }

  /** Every existing date is the date of its own day number. */
  lemma EpochDayRoundTrip(c: CivilDate)
    requires Valid(c)
    ensures CivilFromEpochDay(EpochDay(c)) == c
  {
    EpochDayInjective(CivilFromEpochDay(EpochDay(c)), c);
  }

  // ---------------------------------------------------------------------------
  // Lenient carries

  /** The first of the month after (y, m) comes DaysInMonth days after the first of (y, m). */
  lemma LenientNextMonth(y: int, m: int)
    ensures LenientEpochDay(y, m + 1, 1) == LenientEpochDay(y, m, 1) + DaysInMonth(y + m / 12, m % 12)
  {
    LenientNextMonthAt(y, m, y + m / 12, m % 12);
  }

  /** LenientNextMonth with the normalised year and month given as yy and mm. */
  lemma LenientNextMonthAt(y: int, m: int, yy: int, mm: int)
    requires 0 <= mm < 12 && m == mm + 12 * (yy - y)
    ensures LenientEpochDay(y, m + 1, 1) == LenientEpochDay(y, m, 1) + DaysInMonth(yy, mm)
  {
    LenientShift(y, m, yy, mm, 1);
    LenientShift(y, m + 1, yy, mm + 1, 1);
    LastDayOfMonth(yy, mm);
    LenientDayOffset(yy, mm, DaysInMonth(yy, mm));
  }

  /** A month value m0 + 12 * (y0 - y) in year y is month m0 of year y0. */
  lemma LenientShift(y: int, m: int, y0: int, m0: int, d: int)
    requires m == m0 + 12 * (y0 - y)
    ensures LenientEpochDay(y, m, d) == LenientEpochDay(y0, m0, d)
  {
    assert m / 12 == m0 / 12 + (y0 - y) && m % 12 == m0 % 12;
  }

  /** Day d of a month is d - 1 days after its first day. */
  lemma LenientDayOffset(y: int, m: int, d: int)
    ensures LenientEpochDay(y, m, d) == LenientEpochDay(y, m, 1) + d - 1
  {
  }

  /** Day 0 of the next month, and the day before the first of the next month, is the last day of month m. */
  lemma LastDayOfMonth(y: int, m: int)
    requires 0 <= m < 12
    ensures LenientEpochDay(y, m + 1, 0) == LenientEpochDay(y, m, DaysInMonth(y, m))
    ensures LenientEpochDay(y, m + 1, 1) == LenientEpochDay(y, m, DaysInMonth(y, m)) + 1
  {
    if m < 11 {
      NextMonthWithinYear(y, m);
    } else {
      NextMonthNewYear(y);
    }
  }

  lemma NextMonthWithinYear(y: int, m: int)
    requires 0 <= m < 11
    ensures LenientEpochDay(y, m + 1, 1) == LenientEpochDay(y, m, DaysInMonth(y, m)) + 1
  {
    LenientInRange(y, m, DaysInMonth(y, m));
    LenientInRange(y, m + 1, 1);
    MonthStep(y, m);
  }

  lemma NextMonthNewYear(y: int)
    ensures LenientEpochDay(y, 12, 1) == LenientEpochDay(y, 11, 31) + 1
  {
    LenientDecember(y, 1);
    LenientInRange(y + 1, 0, 1);
    NewYearsEve(y);
  }

  /** Month 12 is January of the next year. */
  lemma LenientDecember(y: int, d: int)
    ensures LenientEpochDay(y, 12, d) == EpochDay(CivilDate(y + 1, 0, d))
  {
  }

  /** A month value 12 larger is the same month one year later. */
  lemma LenientMonthCarry(y: int, m: int, d: int)
    ensures LenientEpochDay(y, m + 12, d) == LenientEpochDay(y + 1, m, d)
  {
    assert (m + 12) / 12 == m / 12 + 1 && (m + 12) % 12 == m % 12;
  }

  // ---------------------------------------------------------------------------
  // Order of dates by month

  /** Months counted from year 0 (LocalDate.getProlepticMonth, months from 0). */
  function ProlepticMonth(c: CivilDate): int {
    c.year * 12 + c.month
  }

  /** An existing date of an earlier year comes before any existing date of a later year. */
  lemma EarlierYearEarlierDay(a: CivilDate, b: CivilDate)
    requires Valid(a) && Valid(b) && a.year < b.year
    ensures EpochDay(a) < EpochDay(b)
  {
    DayWithinItsYear(a);
    DayWithinItsYear(b);
    YearsOrdered(a.year, b.year);
  }

  /** Within one year, an existing date of an earlier month comes before any date of a later month. */
  lemma EarlierMonthEarlierDay(a: CivilDate, b: CivilDate)
    requires Valid(a) && Valid(b) && a.year == b.year && a.month < b.month
    ensures EpochDay(a) < EpochDay(b)
  {
    DayWithinItsMonth(a);
    DayWithinItsMonth(b);
    MonthsOrdered(a.year, a.month, b.month);
  }

  /** Existing dates are ordered by day number exactly as by (proleptic month, day). */
  lemma CivilOrder(a: CivilDate, b: CivilDate)
    requires Valid(a) && Valid(b)
    ensures EpochDay(a) <= EpochDay(b)
        <==> ProlepticMonth(a) < ProlepticMonth(b)
             || (ProlepticMonth(a) == ProlepticMonth(b) && a.day <= b.day)
  {
    if a.year < b.year {
      EarlierYearEarlierDay(a, b);
    } else if b.year < a.year {
      EarlierYearEarlierDay(b, a);
    } else if a.month < b.month {
      EarlierMonthEarlierDay(a, b);
    } else if b.month < a.month {
      EarlierMonthEarlierDay(b, a);
    }
  }

  /** 31 December is the day before 1 January of the next year. */
  lemma NewYearsEve(y: int)
    ensures LenientEpochDay(y, 11, 31) + 1 == LenientEpochDay(y + 1, 0, 1)
  {
    MonthStep(y, 11);
    DaysBeforeMonthYear(y);
    YearStep(y);
  }
}
