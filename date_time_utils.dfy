/**
  Model of uk.cjack.utilities.DateTimeUtils.

  A date is an instant: milliseconds since 1970-01-01T00:00:00Z, read in one fixed
  time zone (UTC). Calendar fields follow java.util.Calendar: months 0..11, days of
  the month from 1, hours 0..23, days of the week from Sunday = 1. Functions model
  the utilities that build new dates; the classes Date and Calendar and the methods
  over them model the utilities that overwrite a caller's date in place.
*/
module DateTimeUtils {
  import opened Wrappers
  import opened Gregorian
  import opened DecimalText

  const MsPerSecond := 1000
  /** UnitConstants.MILLISECONDS_IN_A_MINUTE */
  const MsPerMinute := 60000
  /** UnitConstants.MINUTES_IN_AN_HOUR */
  const MinutesPerHour := 60
  const MsPerHour := 3600000
  const MsPerDay := 86400000

  datatype TimeEvent = StartOfYear | StartOfDay | EndOfDay | EndOfYear | OneWeekAgo

  /** The calendar fields of an instant, as Calendar.get reads them. */
  datatype Fields = Fields(year: int, month: int, day: int,
                           hour: int, minute: int, second: int, millisecond: int)

  // ===========================================================================
  // Reading an instant

  /** Day number (days since 1970-01-01) of the day containing instant t. */
  function DayNumber(t: int): int {
    t / MsPerDay
  }

  function MillisOfDay(t: int): (r: int)
    ensures 0 <= r < MsPerDay
  {
    t % MsPerDay
  }

  /** The calendar date of t (toLocalDate). */
  function ToLocalDate(t: int): (c: CivilDate)
    ensures Valid(c) && EpochDay(c) == DayNumber(t)
  {
    CivilFromEpochDay(DayNumber(t))
  }

  function GetYear(t: int): int {
    ToLocalDate(t).year
  }

  function GetMonth(t: int): (m: int)
    ensures 0 <= m < 12
  {
    ToLocalDate(t).month
  }

  function GetDay(t: int): (d: int)
    ensures 1 <= d <= DaysInMonth(GetYear(t), GetMonth(t))
  {
    ToLocalDate(t).day
  }

  function GetHours(t: int): (h: int)
    ensures 0 <= h < 24
  {
    MillisOfDay(t) / MsPerHour
  }

  function GetMinutes(t: int): (m: int)
    ensures 0 <= m < 60
  {
    MillisOfDay(t) / MsPerMinute % 60
  }

  function GetSeconds(t: int): (s: int)
    ensures 0 <= s < 60
  {
    MillisOfDay(t) / MsPerSecond % 60
  }

  /** Calendar.MILLISECOND; the source has no getter of its own for it. */
  function GetMillisecond(t: int): (ms: int)
    ensures 0 <= ms < 1000
  {
    MillisOfDay(t) % MsPerSecond
  }

  /** Sunday = 1 ... Saturday = 7; 1970-01-01 was a Thursday. */
  function GetDayOfWeek(t: int): (w: int)
    ensures 1 <= w <= 7
  {
    (DayNumber(t) + 4) % 7 + 1
  }

  /** The day after any date is the next day of the week, Saturday (7) wrapping to Sunday (1). */
  lemma DayOfWeekNextDay(t: int)
    ensures GetDayOfWeek(PlusDays(t, 1)) == GetDayOfWeek(t) % 7 + 1
  {
    PlusDaysSplit(t, 1);
  }

  /**
    Sunday 4 January 1970 is day 1 of the week, and every date is one more than its
    distance in days from that Sunday, taken modulo 7.
  */
  lemma DayOfWeekFromSunday(t: int)
    ensures GetDayOfWeek(SetDate(1970, 0, 4)) == 1
    ensures GetDayOfWeek(t) == DaysBetween(SetDate(1970, 0, 4), t) % 7 + 1
  {
    FirstSunday();
    WeekdayShift(DayNumber(t), DaysBetween(SetDate(1970, 0, 4), t));
  }

  /** 4 January 1970 is day 3 after the epoch. */
  lemma FirstSunday()
    ensures DayNumber(SetDate(1970, 0, 4)) == 3
  {
    SetDateTimeSplit(1970, 0, 4, 0, 0, 0, 0);
    LenientInRange(1970, 0, 4);
    assert EpochDay(CivilDate(1970, 0, 4)) == 3;
  }

  lemma WeekdayShift(n: int, k: int)
    requires k == n - 3
    ensures (n + 4) % 7 == k % 7
  {
    assert n + 4 == k + 7;
  }

  function FieldsOf(t: int): Fields {
    Fields(GetYear(t), GetMonth(t), GetDay(t),
           GetHours(t), GetMinutes(t), GetSeconds(t), GetMillisecond(t))
  }

  // ===========================================================================
  // Composing an instant from fields (setDateTime and setDate)

  function TimeOfDayMillis(hour: int, minute: int, second: int, millisecond: int): int {
    ((hour * 60 + minute) * 60 + second) * MsPerSecond + millisecond
  }

  /**
    setDateTime: a cleared lenient Calendar given all seven fields. Every field may be
    out of range and carries into the next larger one.
  */
  function SetDateTime(year: int, month: int, day: int,
                       hour: int, minute: int, second: int, millisecond: int): int
  {
    LenientEpochDay(year, month, day) * MsPerDay + TimeOfDayMillis(hour, minute, second, millisecond)
  }

  /** setDateTime(year, month, day, hour, minute): seconds and milliseconds 0. */
  function SetDateTimeToMinute(year: int, month: int, day: int, hour: int, minute: int): int {
    SetDateTime(year, month, day, hour, minute, 0, 0)
  }

  /** setDate: midnight at the start of the (lenient) day. */
  function SetDate(year: int, month: int, day: int): int {
    SetDateTime(year, month, day, 0, 0, 0, 0)
  }

  // ---------------------------------------------------------------------------

  lemma SplitInstant(day: int, millisOfDay: int)
    requires 0 <= millisOfDay < MsPerDay
    ensures DayNumber(day * MsPerDay + millisOfDay) == day
    ensures MillisOfDay(day * MsPerDay + millisOfDay) == millisOfDay
  {
  }

  /** Every instant is its day's midnight plus its time of day. */
  lemma InstantSplit(t: int)
    ensures t == DayNumber(t) * MsPerDay + MillisOfDay(t)
  {
  }

  /** The midnight that starts day e. */
  lemma MidnightOfDay(e: int)
    ensures DayNumber(e * MsPerDay) == e && MillisOfDay(e * MsPerDay) == 0
  {
  }

  lemma TimeOfDayFields(hour: int, minute: int, second: int, millisecond: int)
    requires 0 <= hour < 24 && 0 <= minute < 60 && 0 <= second < 60 && 0 <= millisecond < 1000
    ensures var tod := TimeOfDayMillis(hour, minute, second, millisecond);
            && 0 <= tod < MsPerDay
            && tod / MsPerHour == hour
            && tod / MsPerMinute % 60 == minute
            && tod / MsPerSecond % 60 == second
            && tod % MsPerSecond == millisecond
  {
    var tod := TimeOfDayMillis(hour, minute, second, millisecond);
    assert tod / MsPerSecond == (hour * 60 + minute) * 60 + second;
    assert tod / MsPerMinute == hour * 60 + minute;
  }

  /** Instants of the same day have the same calendar date. */
  lemma DateOfDay(t: int, e: int)
    requires DayNumber(t) == e
    ensures ToLocalDate(t) == CivilFromEpochDay(e)
  {
  }

  /** With the time fields in range, setDateTime falls on its lenient day at the composed time. */
  lemma SetDateTimeSplit(year: int, month: int, day: int, hour: int, minute: int, second: int, millisecond: int)
    requires 0 <= hour < 24 && 0 <= minute < 60 && 0 <= second < 60 && 0 <= millisecond < 1000
    ensures DayNumber(SetDateTime(year, month, day, hour, minute, second, millisecond)) == LenientEpochDay(year, month, day)
    ensures MillisOfDay(SetDateTime(year, month, day, hour, minute, second, millisecond))
         == TimeOfDayMillis(hour, minute, second, millisecond)
  {
    TimeOfDayFields(hour, minute, second, millisecond);
    SplitInstant(LenientEpochDay(year, month, day), TimeOfDayMillis(hour, minute, second, millisecond));
  }

  /** An instant at a composed time of the day of t reads as that date with that time. */
  lemma TimeOnSameDay(t: int, r: int, hour: int, minute: int, second: int, millisecond: int)
    requires 0 <= hour < 24 && 0 <= minute < 60 && 0 <= second < 60 && 0 <= millisecond < 1000
    requires r == DayNumber(t) * MsPerDay + TimeOfDayMillis(hour, minute, second, millisecond)
    ensures DayNumber(r) == DayNumber(t) && ToLocalDate(r) == ToLocalDate(t)
    ensures FieldsOf(r) == Fields(GetYear(t), GetMonth(t), GetDay(t), hour, minute, second, millisecond)
  {
    TimeOfDayFields(hour, minute, second, millisecond);
    SplitInstant(DayNumber(t), TimeOfDayMillis(hour, minute, second, millisecond));
    DateOfDay(r, DayNumber(t));
  }

  /** Fields in range are read back exactly: setDateTime builds the date it is given. */
  lemma SetDateTimeFields(year: int, month: int, day: int,
                          hour: int, minute: int, second: int, millisecond: int)
    requires Valid(CivilDate(year, month, day))
    requires 0 <= hour < 24 && 0 <= minute < 60 && 0 <= second < 60 && 0 <= millisecond < 1000
    ensures FieldsOf(SetDateTime(year, month, day, hour, minute, second, millisecond))
         == Fields(year, month, day, hour, minute, second, millisecond)
  {
    var c := CivilDate(year, month, day);
    var t := SetDateTime(year, month, day, hour, minute, second, millisecond);
    SetDateTimeSplit(year, month, day, hour, minute, second, millisecond);
    TimeOfDayFields(hour, minute, second, millisecond);
    EpochDayRoundTrip(c);
    DateOfDay(t, EpochDay(c));
  }

  /** The five-argument setDateTime reads back as the date and the time to the minute, seconds and milliseconds 0. */
  lemma SetDateTimeToMinuteFields(year: int, month: int, day: int, hour: int, minute: int)
    requires Valid(CivilDate(year, month, day))
    requires 0 <= hour < 24 && 0 <= minute < 60
    ensures FieldsOf(SetDateTimeToMinute(year, month, day, hour, minute)) == Fields(year, month, day, hour, minute, 0, 0)
  {
    SetDateTimeFields(year, month, day, hour, minute, 0, 0);
  }

  /** Every instant is the composition of its own fields. */
  lemma FieldsCompose(t: int)
    ensures var f := FieldsOf(t);
            SetDateTime(f.year, f.month, f.day, f.hour, f.minute, f.second, f.millisecond) == t
  {
    SetTimeFromMidnight(t, GetHours(t), GetMinutes(t), GetSeconds(t), GetMillisecond(t));
    TimeOfDayDecompose(MillisOfDay(t));
    InstantSplit(t);
  }

  /** A time of day is recomposed from its hour, minute, second and millisecond. */
  lemma TimeOfDayDecompose(tod: int)
    requires 0 <= tod < MsPerDay
    ensures TimeOfDayMillis(tod / MsPerHour, tod / MsPerMinute % 60, tod / MsPerSecond % 60, tod % MsPerSecond) == tod
  {
    assert tod / MsPerMinute == tod / MsPerHour * 60 + tod / MsPerMinute % 60;
    assert tod / MsPerSecond == tod / MsPerMinute * 60 + tod / MsPerSecond % 60;
  }

  /** Leniency: day 0 of month m + 1 is the last day of month m, 29 February in leap years. */
  lemma SetDateDayZero(year: int, month: int)
    requires 0 <= month < 12
    ensures SetDate(year, month + 1, 0) == SetDate(year, month, DaysInMonth(year, month))
    ensures FieldsOf(SetDate(year, month + 1, 0)) == Fields(year, month, DaysInMonth(year, month), 0, 0, 0, 0)
  {
    LastDayOfMonth(year, month);
    SetDateTimeFields(year, month, DaysInMonth(year, month), 0, 0, 0, 0);
  }

  /** Leniency: millisecond -1 is the millisecond before the composed time. */
  lemma SetDateTimeMillisMinusOne(year: int, month: int, day: int, hour: int, minute: int, second: int)
    ensures SetDateTime(year, month, day, hour, minute, second, -1)
         == SetDateTime(year, month, day, hour, minute, second, 0) - 1
  {
  }

  /** Leniency: month 12 is January of the next year (any month 12 larger, one year later). */
  lemma SetDateTimeMonthCarry(year: int, month: int, day: int,
                              hour: int, minute: int, second: int, millisecond: int)
    ensures SetDateTime(year, month + 12, day, hour, minute, second, millisecond)
         == SetDateTime(year + 1, month, day, hour, minute, second, millisecond)
  {
    LenientMonthCarry(year, month, day);
  }

  // ===========================================================================
  // setTime family

  /**
    setTime(date, hours, minutes, seconds, milliseconds): the year, month and day of
    date with the given time, composed leniently.
  */
  function SetTime(t: int, hours: int, minutes: int, seconds: int, milliseconds: int): int {
    SetDateTime(GetYear(t), GetMonth(t), GetDay(t), hours, minutes, seconds, milliseconds)
  }

  /** setTime(date, hours, minutes): seconds and milliseconds 0. */
  function SetTimeHoursMinutes(t: int, hours: int, minutes: int): int {
    SetTime(t, hours, minutes, 0, 0)
  }

  /** setTime(date, dateWithTime, copySeconds): hours and minutes (and seconds if asked) of another date. */
  function SetTimeOf(t: int, dateWithTime: int, copySeconds: bool): int {
    var seconds := if copySeconds then GetSeconds(dateWithTime) else 0;
    SetTime(t, GetHours(dateWithTime), GetMinutes(dateWithTime), seconds, 0)
  }

  /** setTime(date, dateWithTime): as SetTimeOf without copying the seconds. */
  function SetHoursMinutesOf(t: int, dateWithTime: int): int {
    SetTimeOf(t, dateWithTime, false)
  }

  /** setTimeOnDummyDate(hours, minutes): the time on 1970-01-01. */
  function SetTimeOnDummyDate(hours: int, minutes: int): int {
    SetTime(0, hours, minutes, 0, 0)
  }

  /** setTimeOnDummyDate(dateWithTime): null in, null out. */
  function SetTimeOfOnDummyDate(dateWithTime: Option<int>): Option<int> {
    match dateWithTime
    case None => None
    case Some(w) => Some(SetTime(0, GetHours(w), GetMinutes(w), 0, 0))
  }

  // ---------------------------------------------------------------------------

  /** For any time fields, setTime is midnight of the date's day plus the composed time. */
  lemma SetTimeFromMidnight(t: int, hours: int, minutes: int, seconds: int, milliseconds: int)
    ensures SetTime(t, hours, minutes, seconds, milliseconds)
         == DayNumber(t) * MsPerDay + TimeOfDayMillis(hours, minutes, seconds, milliseconds)
  {
    var c := ToLocalDate(t);
    LenientInRange(c.year, c.month, c.day);
    assert CivilDate(c.year, c.month, c.day) == c;
  }

  /** setTime keeps year, month and day and sets the four time fields. */
  lemma SetTimeFields(t: int, hours: int, minutes: int, seconds: int, milliseconds: int)
    requires 0 <= hours < 24 && 0 <= minutes < 60 && 0 <= seconds < 60 && 0 <= milliseconds < 1000
    ensures FieldsOf(SetTime(t, hours, minutes, seconds, milliseconds))
         == Fields(GetYear(t), GetMonth(t), GetDay(t), hours, minutes, seconds, milliseconds)
  {
    SetTimeFromMidnight(t, hours, minutes, seconds, milliseconds);
    TimeOnSameDay(t, SetTime(t, hours, minutes, seconds, milliseconds), hours, minutes, seconds, milliseconds);
  }

  /** The two-field overload defaults seconds and milliseconds to 0. */
  lemma SetTimeHoursMinutesFields(t: int, hours: int, minutes: int)
    requires 0 <= hours < 24 && 0 <= minutes < 60
    ensures FieldsOf(SetTimeHoursMinutes(t, hours, minutes))
         == Fields(GetYear(t), GetMonth(t), GetDay(t), hours, minutes, 0, 0)
  {
    SetTimeFields(t, hours, minutes, 0, 0);
  }

  /** Copying the time of another date: its hours and minutes, its seconds only when asked. */
  lemma SetTimeOfFields(t: int, dateWithTime: int, copySeconds: bool)
    ensures FieldsOf(SetTimeOf(t, dateWithTime, copySeconds))
         == Fields(GetYear(t), GetMonth(t), GetDay(t), GetHours(dateWithTime), GetMinutes(dateWithTime),
                   if copySeconds then GetSeconds(dateWithTime) else 0, 0)
    ensures FieldsOf(SetHoursMinutesOf(t, dateWithTime))
         == Fields(GetYear(t), GetMonth(t), GetDay(t), GetHours(dateWithTime), GetMinutes(dateWithTime), 0, 0)
  {
    var seconds := if copySeconds then GetSeconds(dateWithTime) else 0;
    SetTimeFields(t, GetHours(dateWithTime), GetMinutes(dateWithTime), seconds, 0);
    SetTimeFields(t, GetHours(dateWithTime), GetMinutes(dateWithTime), 0, 0);
  }

  /** The dummy date is 1 January 1970: the result is just the time of day in milliseconds. */
  lemma DummyDateFields(hours: int, minutes: int)
    requires 0 <= hours < 24 && 0 <= minutes < 60
    ensures SetTimeOnDummyDate(hours, minutes) == hours * MsPerHour + minutes * MsPerMinute
    ensures FieldsOf(SetTimeOnDummyDate(hours, minutes)) == Fields(1970, 0, 1, hours, minutes, 0, 0)
  {
    EpochDate();
    SetTimeFromMidnight(0, hours, minutes, 0, 0);
    TimeOnSameDay(0, SetTimeOnDummyDate(hours, minutes), hours, minutes, 0, 0);
  }

  /** Instant 0 falls on 1 January 1970. */
  lemma EpochDate()
    ensures ToLocalDate(0) == CivilDate(1970, 0, 1)
  {
    var epoch := CivilDate(1970, 0, 1);
    assert EpochDay(epoch) == 0;
    EpochDayInjective(ToLocalDate(0), epoch);
  }

  /**
    A present date gives 1 January 1970 at its hours and minutes, with seconds and
    milliseconds 0; an absent date gives an absent result.
  */
  lemma DummyDateOfFields(dateWithTime: Option<int>)
    ensures SetTimeOfOnDummyDate(dateWithTime).Some? <==> dateWithTime.Some?
    ensures dateWithTime.Some? ==>
              FieldsOf(SetTimeOfOnDummyDate(dateWithTime).value)
                == Fields(1970, 0, 1, GetHours(dateWithTime.value), GetMinutes(dateWithTime.value), 0, 0)
  {
    if dateWithTime.Some? {
      var w := dateWithTime.value;
      DummyDateFields(GetHours(w), GetMinutes(w));
    }
  }

  // ===========================================================================
  // Day and minute arithmetic (Calendar.add under a fixed offset)

  /** Calendar.add(DAY_OF_MONTH, days): the same wall-clock time, days later. */
  function PlusDays(t: int, days: int): int {
    t + days * MsPerDay
  }

  /** Calendar.add(MINUTE, minutes). */
  function PlusMinutes(t: int, minutes: int): int {
    t + minutes * MsPerMinute
  }

  /** Adding days moves the calendar date by that many days and keeps the time of day. */
  lemma PlusDaysShiftsDate(t: int, days: int)
    ensures DayNumber(PlusDays(t, days)) == DayNumber(t) + days
    ensures MillisOfDay(PlusDays(t, days)) == MillisOfDay(t)
    ensures GetHours(PlusDays(t, days)) == GetHours(t) && GetMinutes(PlusDays(t, days)) == GetMinutes(t)
    ensures GetSeconds(PlusDays(t, days)) == GetSeconds(t)
    ensures GetMillisecond(PlusDays(t, days)) == GetMillisecond(t)
    ensures DaysBetween(t, PlusDays(t, days)) == days
  {
    PlusDaysSplit(t, days);
  }

  lemma PlusDaysSplit(t: int, days: int)
    ensures DayNumber(PlusDays(t, days)) == DayNumber(t) + days
    ensures MillisOfDay(PlusDays(t, days)) == MillisOfDay(t)
  {
    InstantSplit(t);
    assert PlusDays(t, days) == (DayNumber(t) + days) * MsPerDay + MillisOfDay(t);
    SplitInstant(DayNumber(t) + days, MillisOfDay(t));
  }

  /** Adding then subtracting the same number of minutes restores the instant. */
  lemma PlusMinutesInverse(t: int, minutes: int)
    ensures PlusMinutes(PlusMinutes(t, minutes), -minutes) == t
    ensures MillisecondsBetween(t, PlusMinutes(t, minutes)) == minutes * MsPerMinute
    ensures MinutesBetween(t, PlusMinutes(t, minutes)) == minutes
  {
    if minutes < 0 {
      assert -(minutes * MsPerMinute) == (-minutes) * MsPerMinute;
    }
  }

  // ===========================================================================
  // TimeEvent resolution (setTimeEvent, resetTime)

  /**
    setTimeEvent: a new date for the event, computed from date; date itself is not
    changed. Every one of the five events is handled.
  */
  function SetTimeEvent(t: int, event: TimeEvent): int {
    match event
    case StartOfYear => SetDate(GetYear(t), 0, 1)
    case StartOfDay => SetTime(t, 0, 0, 0, 0)
    case EndOfDay => SetTime(PlusDays(t, 1), 0, 0, 0, -1)
    case EndOfYear => SetTime(SetDate(GetYear(t) + 1, 0, 1), 0, 0, 0, -1)
    case OneWeekAgo => PlusDays(SetTime(t, 0, 0, 0, 0), -7)
  }

  function ResetTime(t: int): int {
    SetTimeEvent(t, StartOfDay)
  }

  /** START_OF_DAY: the same date at 00:00:00.000, the last midnight not after t. */
  lemma StartOfDayFields(t: int)
    ensures var r := SetTimeEvent(t, StartOfDay);
            && FieldsOf(r) == Fields(GetYear(t), GetMonth(t), GetDay(t), 0, 0, 0, 0)
            && r <= t < r + MsPerDay
            && ResetTime(t) == r
  {
    StartOfDayInstant(t);
    TimeOnSameDay(t, SetTimeEvent(t, StartOfDay), 0, 0, 0, 0);
    InstantSplit(t);
  }

  /** START_OF_DAY as an instant: the midnight of the day of t. */
  lemma StartOfDayInstant(t: int)
    ensures SetTimeEvent(t, StartOfDay) == DayNumber(t) * MsPerDay
    ensures DayNumber(SetTimeEvent(t, StartOfDay)) == DayNumber(t)
    ensures MillisOfDay(SetTimeEvent(t, StartOfDay)) == 0
  {
    SetTimeFromMidnight(t, 0, 0, 0, 0);
    MidnightOfDay(DayNumber(t));
  }

  /** END_OF_DAY as an instant: the last millisecond of the day of t. */
  lemma EndOfDayInstant(t: int)
    ensures SetTimeEvent(t, EndOfDay) == DayNumber(t) * MsPerDay + TimeOfDayMillis(23, 59, 59, 999)
    ensures DayNumber(SetTimeEvent(t, EndOfDay)) == DayNumber(t)
  {
    PlusDaysSplit(t, 1);
    SetTimeFromMidnight(PlusDays(t, 1), 0, 0, 0, -1);
    SplitInstant(DayNumber(t), TimeOfDayMillis(23, 59, 59, 999));
  }

  /** END_OF_DAY: the same date at 23:59:59.999, 86 399 999 ms after the start of the day. */
  lemma EndOfDayFields(t: int)
    ensures var r := SetTimeEvent(t, EndOfDay);
            && FieldsOf(r) == Fields(GetYear(t), GetMonth(t), GetDay(t), 23, 59, 59, 999)
            && MillisecondsBetween(SetTimeEvent(t, StartOfDay), r) == 86399999
            && t <= r < t + MsPerDay
  {
    EndOfDayInstant(t);
    TimeOnSameDay(t, SetTimeEvent(t, EndOfDay), 23, 59, 59, 999);
    StartOfDayInstant(t);
    InstantSplit(t);
  }

  /** The days of year y run from 1 January to 31 December, which precedes 1 January of y + 1. */
  lemma DayWithinYear(t: int)
    ensures var y := GetYear(t);
            && EpochDay(CivilDate(y, 0, 1)) <= DayNumber(t) <= EpochDay(CivilDate(y, 11, 31))
            && EpochDay(CivilDate(y, 11, 31)) + 1 == EpochDay(CivilDate(y + 1, 0, 1))
  {
    DayWithinItsYear(ToLocalDate(t));
    NewYearsEve(GetYear(t));
  }

  /** START_OF_YEAR: 1 January 00:00:00.000 of the date's year, within a year before t. */
  lemma StartOfYearFields(t: int)
    ensures var r := SetTimeEvent(t, StartOfYear);
            && FieldsOf(r) == Fields(GetYear(t), 0, 1, 0, 0, 0, 0)
            && r <= t < r + DaysInYear(GetYear(t)) * MsPerDay
  {
    var y := GetYear(t);
    DayWithinYear(t);
    SetDateTimeFields(y, 0, 1, 0, 0, 0, 0);
    SetDateTimeSplit(y, 0, 1, 0, 0, 0, 0);
    InstantSplit(SetDate(y, 0, 1));
    InstantSplit(t);
    YearStep(y);
  }

  /** END_OF_YEAR: one millisecond before 1 January of the next year, 31 December 23:59:59.999. */
  lemma EndOfYearFields(t: int)
    ensures var r := SetTimeEvent(t, EndOfYear);
            && FieldsOf(r) == Fields(GetYear(t), 11, 31, 23, 59, 59, 999)
            && r + 1 == SetDate(GetYear(t) + 1, 0, 1)
            && t <= r
  {
    var y := GetYear(t);
    EndOfYearInstant(t);
    SetDateTimeFields(y, 11, 31, 23, 59, 59, 999);
  }

  lemma EndOfYearInstant(t: int)
    ensures var y, r := GetYear(t), SetTimeEvent(t, EndOfYear);
            && r == SetDateTime(y, 11, 31, 23, 59, 59, 999)
            && r + 1 == SetDate(y + 1, 0, 1)
            && t <= r
  {
    var y := GetYear(t);
    EndOfYearBeforeNextYear(t);
    NewYearsEve(y);
    DayWithinYear(t);
    InstantSplit(t);
  }

  lemma EndOfYearBeforeNextYear(t: int)
    ensures SetTimeEvent(t, EndOfYear) + 1 == SetDate(GetYear(t) + 1, 0, 1)
  {
    EndOfYearUnfold(t);
    BeforeNewYear(GetYear(t) + 1);
  }

  lemma BeforeNewYear(y: int)
    ensures SetTime(SetDate(y, 0, 1), 0, 0, 0, -1) == SetDate(y, 0, 1) - 1
  {
    SetDateTimeSplit(y, 0, 1, 0, 0, 0, 0);
    MidnightMinusOne(SetDate(y, 0, 1));
  }

  /** The END_OF_YEAR case of setTimeEvent, unfolded on its own. */
  lemma EndOfYearUnfold(t: int)
    ensures SetTimeEvent(t, EndOfYear) == SetTime(SetDate(GetYear(t) + 1, 0, 1), 0, 0, 0, -1)
  {
  }

  /** Resetting a midnight leaves it where it is. */
  lemma MidnightStartOfDay(midnight: int)
    requires MillisOfDay(midnight) == 0
    ensures SetTimeEvent(midnight, StartOfDay) == midnight
  {
    SetTimeFromMidnight(midnight, 0, 0, 0, 0);
  }

  /** Millisecond -1 of a midnight is the last millisecond of the day before. */
  lemma MidnightMinusOne(midnight: int)
    requires MillisOfDay(midnight) == 0
    ensures SetTime(midnight, 0, 0, 0, -1) == midnight - 1
  {
    SetTimeFromMidnight(midnight, 0, 0, 0, -1);
  }

  /** ONE_WEEK_AGO: midnight seven calendar days before the date. */
  lemma OneWeekAgoFields(t: int)
    ensures var r := SetTimeEvent(t, OneWeekAgo);
            && r == SetTimeEvent(t, StartOfDay) - 7 * MsPerDay
            && MillisOfDay(r) == 0
            && DaysBetween(r, t) == 7
  {
    StartOfDayInstant(t);
    PlusDaysSplit(SetTime(t, 0, 0, 0, 0), -7);
  }

  // ===========================================================================
  // Year boundaries

  /** getStartOfYear */
  function GetStartOfYear(year: int): int {
    SetTimeEvent(SetDate(year, 0, 1), StartOfYear)
  }

  /** getEndOfYear: END_OF_DAY of 31 December. */
  function GetEndOfYear(year: int): int {
    SetTimeEvent(SetDate(year, 11, 31), EndOfDay)
  }

  lemma GetStartOfYearFields(year: int)
    ensures GetStartOfYear(year) == SetDate(year, 0, 1)
    ensures FieldsOf(GetStartOfYear(year)) == Fields(year, 0, 1, 0, 0, 0, 0)
  {
    SetDateTimeFields(year, 0, 1, 0, 0, 0, 0);
  }

  /**
    getEndOfYear agrees with END_OF_YEAR applied to any date of the year, and is one
    millisecond before the start of the next year.
  */
  lemma GetEndOfYearFields(year: int, t: int)
    requires GetYear(t) == year
    ensures GetEndOfYear(year) == SetTimeEvent(t, EndOfYear)
    ensures GetEndOfYear(year) + 1 == GetStartOfYear(year + 1)
    ensures FieldsOf(GetEndOfYear(year)) == Fields(year, 11, 31, 23, 59, 59, 999)
  {
    GetEndOfYearInstant(year);
    EndOfYearBeforeNextYear(t);
    GetStartOfYearFields(year + 1);
    SetDateTimeFields(year, 11, 31, 23, 59, 59, 999);
  }

  lemma GetEndOfYearInstant(year: int)
    ensures GetEndOfYear(year) == SetDate(year + 1, 0, 1) - 1
    ensures GetEndOfYear(year) == SetDateTime(year, 11, 31, 23, 59, 59, 999)
  {
    SetDateTimeSplit(year, 11, 31, 0, 0, 0, 0);
    EndOfDayOfMidnight(SetDate(year, 11, 31));
    InstantSplit(SetDate(year, 11, 31));
    NewYearsEve(year);
  }

  /** END_OF_DAY of a midnight is one millisecond before the next midnight. */
  lemma EndOfDayOfMidnight(midnight: int)
    requires MillisOfDay(midnight) == 0
    ensures SetTimeEvent(midnight, EndOfDay) == midnight + MsPerDay - 1
  {
    EndOfDayInstant(midnight);
    InstantSplit(midnight);
  }

  // ===========================================================================
  // Month boundaries

  /** The start slot of setMonthBoundaries: START_OF_DAY of day 1 of the month. */
  function StartOfMonth(year: int, month: int): int {
    SetTimeEvent(SetDate(year, month, 1), StartOfDay)
  }

  /** The end slot of setMonthBoundaries: END_OF_DAY of day 0 of the following month. */
  function EndOfMonth(year: int, month: int): int {
    SetTimeEvent(SetDate(year, month + 1, 0), EndOfDay)
  }

  /** The start slot as an instant: midnight of the first of the month, for any month value. */
  lemma StartOfMonthInstant(year: int, month: int)
    ensures StartOfMonth(year, month) == SetDate(year, month, 1)
  {
    SetDateTimeSplit(year, month, 1, 0, 0, 0, 0);
    MidnightStartOfDay(SetDate(year, month, 1));
  }

  /** The end slot as an instant: one millisecond before the first of the next month, for any month value. */
  lemma EndOfMonthInstant(year: int, month: int)
    ensures EndOfMonth(year, month) == SetDate(year, month + 1, 1) - 1
  {
    SetDateTimeSplit(year, month + 1, 0, 0, 0, 0, 0);
    EndOfDayOfMidnight(SetDate(year, month + 1, 0));
  }

  /** Both boundaries of an in-range month: day 1 at 00:00:00.000 and the last day at 23:59:59.999. */
  lemma MonthBoundaryFields(year: int, month: int)
    requires 0 <= month < 12
    ensures FieldsOf(StartOfMonth(year, month)) == Fields(year, month, 1, 0, 0, 0, 0)
    ensures FieldsOf(EndOfMonth(year, month)) == Fields(year, month, DaysInMonth(year, month), 23, 59, 59, 999)
  {
    StartOfMonthInstant(year, month);
    SetDateTimeFields(year, month, 1, 0, 0, 0, 0);
    MonthEndIsLastDay(year, month);
    SetDateTimeFields(year, month, DaysInMonth(year, month), 23, 59, 59, 999);
  }

  /** The end of an in-range month is its last day at 23:59:59.999. */
  lemma MonthEndIsLastDay(year: int, month: int)
    requires 0 <= month < 12
    ensures EndOfMonth(year, month) == SetDateTime(year, month, DaysInMonth(year, month), 23, 59, 59, 999)
  {
    EndOfMonthInstant(year, month);
    LastDayOfMonth(year, month);
  }

  /**
    For any month value, lenient or not, the month covers whole days from its start to
    one millisecond before the start of the next month.
  */
  lemma MonthBoundariesContiguous(year: int, month: int)
    ensures EndOfMonth(year, month) + 1 == StartOfMonth(year, month + 1)
    ensures EndOfMonth(year, month) + 1 - StartOfMonth(year, month)
         == DaysInMonth(year + month / 12, month % 12) * MsPerDay
  {
    StartOfMonthInstant(year, month);
    EndOfMonthInstant(year, month);
    StartOfMonthInstant(year, month + 1);
    LenientNextMonth(year, month);
  }

  /** February ends on the 29th in a leap year and on the 28th otherwise. */
  lemma FebruaryEnd(year: int)
    ensures FieldsOf(EndOfMonth(year, 1)) == Fields(year, 1, if IsLeapYear(year) then 29 else 28, 23, 59, 59, 999)
  {
    MonthBoundaryFields(year, 1);
  }

  // ===========================================================================
  // Duration arithmetic

  /** Java's integer division on int and long: the quotient truncated toward zero. */
  function Quot(a: int, d: int): int
    requires d > 0
  {
    if a >= 0 then a / d else -((-a) / d)
  }

  /** Java's % on int and long: the remainder takes the sign of the dividend. */
  function Rem(a: int, d: int): int
    requires d > 0
  {
    a - Quot(a, d) * d
  }

  /** Truncation toward zero: the quotient never overshoots, and keeps the sign of a. */
  lemma QuotTruncates(a: int, d: int)
    requires d > 0
    ensures a >= 0 ==> Quot(a, d) >= 0 && 0 <= Rem(a, d) < d
    ensures a < 0 ==> Quot(a, d) <= 0 && -d < Rem(a, d) <= 0
    ensures Quot(-a, d) == -Quot(a, d)
  {
    var n := if a >= 0 then a else -a;
    EuclideanDivision(n, d);
  }

  /** The non-negative case of Euclidean division, spelled out for the solver. */
  lemma EuclideanDivision(n: int, d: int)
    requires n >= 0 && d > 0
    ensures n / d >= 0 && 0 <= n - (n / d) * d < d
  {
    var q, r := n / d, n % d;
    assert n == q * d + r && 0 <= r < d;
  }

  function MillisecondsBetween(startDate: int, endDate: int): int {
    endDate - startDate
  }

  function SecondsBetween(startDate: int, endDate: int): int {
    Quot(MillisecondsBetween(startDate, endDate), MsPerSecond)
  }

  function MinutesBetween(startDate: int, endDate: int): int {
    Quot(MillisecondsBetween(startDate, endDate), MsPerMinute)
  }

  /** hoursBetween divides the already truncated minutes by 60. */
  function HoursBetween(startDate: int, endDate: int): int {
    Quot(MinutesBetween(startDate, endDate), MinutesPerHour)
  }

  /**
    The truncated units: each is the elapsed time truncated toward zero in its own
    unit (hours included, though computed from truncated minutes), and swapping the
    two dates negates each.
  */
  lemma BetweenTruncates(startDate: int, endDate: int)
    ensures var ms := MillisecondsBetween(startDate, endDate);
            && SecondsBetween(startDate, endDate) == Quot(ms, MsPerSecond)
            && HoursBetween(startDate, endDate) == Quot(ms, MsPerHour)
            && (ms >= 0 ==> 0 <= ms - HoursBetween(startDate, endDate) * MsPerHour < MsPerHour)
            && (ms < 0 ==> -MsPerHour < ms - HoursBetween(startDate, endDate) * MsPerHour <= 0)
    ensures MillisecondsBetween(endDate, startDate) == -MillisecondsBetween(startDate, endDate)
    ensures SecondsBetween(endDate, startDate) == -SecondsBetween(startDate, endDate)
    ensures MinutesBetween(endDate, startDate) == -MinutesBetween(startDate, endDate)
    ensures HoursBetween(endDate, startDate) == -HoursBetween(startDate, endDate)
  {
    var ms := endDate - startDate;
    var a := if ms >= 0 then ms else -ms;
    assert a / MsPerMinute / 60 == a / MsPerHour;
    QuotTruncates(ms, MsPerHour);
    QuotTruncates(ms, MsPerSecond);
    QuotTruncates(ms, MsPerMinute);
    QuotTruncates(MinutesBetween(startDate, endDate), MinutesPerHour);
  }

  /** LocalDate.plusDays */
  function LocalDatePlusDays(c: CivilDate, days: int): (r: CivilDate)
    requires 0 <= c.month < 12
    ensures Valid(r) && EpochDay(r) == EpochDay(c) + days
  {
    CivilFromEpochDay(EpochDay(c) + days)
  }

  /** daysBetween: ChronoUnit.DAYS between the two calendar dates. */
  function DaysBetween(startDate: int, endDate: int): int {
    EpochDay(ToLocalDate(endDate)) - EpochDay(ToLocalDate(startDate))
  }

  /** daysSpanned: DAYS between the start date and the day after the end date. */
  function DaysSpanned(startDate: int, endDate: int): int {
    EpochDay(LocalDatePlusDays(ToLocalDate(endDate), 1)) - EpochDay(ToLocalDate(startDate))
  }

  /** Packed month-and-day key of LocalDate.monthsUntil. */
  function PackedMonthDay(c: CivilDate): int {
    ProlepticMonth(c) * 32 + c.day
  }

  /** LocalDate.until(end, MONTHS): whole months, truncated toward zero. */
  function MonthsUntil(start: CivilDate, end: CivilDate): int {
    Quot(PackedMonthDay(end) - PackedMonthDay(start), 32)
  }

  function MonthsBetween(startDate: int, endDate: int): int {
    MonthsUntil(ToLocalDate(startDate), ToLocalDate(endDate))
  }

  /** LocalDate.until(end, YEARS): whole months divided by 12, truncated toward zero. */
  function YearsBetween(startDate: int, endDate: int): int {
    Quot(MonthsUntil(ToLocalDate(startDate), ToLocalDate(endDate)), 12)
  }

  /**
    daysBetween counts calendar days: it is the difference of the day numbers, it ignores
    the time of day of both dates, it is antisymmetric and it adds up along a chain.
  */
  lemma DaysBetweenDateOnly(a: int, b: int, c: int)
    ensures DaysBetween(a, b) == DayNumber(b) - DayNumber(a)
    ensures DaysBetween(ResetTime(a), SetTimeEvent(b, EndOfDay)) == DaysBetween(a, b)
    ensures DaysBetween(b, a) == -DaysBetween(a, b)
    ensures DaysBetween(a, b) + DaysBetween(b, c) == DaysBetween(a, c)
  {
    StartOfDayInstant(a);
    EndOfDayInstant(b);
  }

  /** daysSpanned counts both end dates: one more than daysBetween. */
  lemma DaysSpannedInclusive(a: int, b: int)
    ensures DaysSpanned(a, b) == DaysBetween(a, b) + 1
  {
  }

  /** The worked case: 2024-01-01 to 2024-01-10 is 9 days between and spans 10 days. */
  lemma DaysBetweenExample()
    ensures DaysBetween(SetDate(2024, 0, 1), SetDate(2024, 0, 10)) == 9
    ensures DaysSpanned(SetDate(2024, 0, 1), SetDate(2024, 0, 10)) == 10
  {
    SetDateTimeSplit(2024, 0, 1, 0, 0, 0, 0);
    SetDateTimeSplit(2024, 0, 10, 0, 0, 0, 0);
  }

  /**
    monthsBetween, for an end date not before the start date, counts the month difference
    less one when the end's day of month is before the start's; swapping the dates negates it.
  */
  lemma MonthsBetweenWholeMonths(a: int, b: int)
    requires DayNumber(a) <= DayNumber(b)
    ensures MonthsBetween(a, b)
         == ProlepticMonth(ToLocalDate(b)) - ProlepticMonth(ToLocalDate(a)) - (if GetDay(b) < GetDay(a) then 1 else 0)
    ensures MonthsBetween(a, b) >= 0
    ensures MonthsBetween(b, a) == -MonthsBetween(a, b)
  {
    var ca, cb := ToLocalDate(a), ToLocalDate(b);
    CivilOrder(ca, cb);
    var diff := PackedMonthDay(cb) - PackedMonthDay(ca);
    assert diff >= 0;
    QuotTruncates(diff, 32);
  }

  /**
    yearsBetween, for an end date not before the start date, counts the year difference
    less one when the end's month and day come before the start's in the year.
  */
  lemma YearsBetweenWholeYears(a: int, b: int)
    requires DayNumber(a) <= DayNumber(b)
    ensures YearsBetween(a, b)
         == GetYear(b) - GetYear(a)
            - (if GetMonth(b) < GetMonth(a) || (GetMonth(b) == GetMonth(a) && GetDay(b) < GetDay(a)) then 1 else 0)
    ensures YearsBetween(b, a) == -YearsBetween(a, b)
  {
    MonthsBetweenWholeMonths(a, b);
    var m := MonthsBetween(a, b);
    QuotTruncates(m, 12);
    QuotTruncates(-m, 12);
  }

  // ===========================================================================
  // Minutes and time strings

  /** convertToMinutes(hours, minutes) */
  function ConvertToMinutes(hours: int, minutes: int): int {
    hours * MinutesPerHour + minutes
  }

  /** convertToMinutes(dateWithTime): minutes into the day. */
  function ConvertToMinutesOf(t: int): (r: int)
    ensures 0 <= r < 24 * 60
    ensures r == MillisOfDay(t) / MsPerMinute
  {
    GetHours(t) * MinutesPerHour + GetMinutes(t)
  }

  /** toStringTime(hours, minutes): String.format with Format.TIME_24H, "%02d:%02d". */
  function ToStringTime(hours: int, minutes: int): string {
    Format02d(hours) + ":" + Format02d(minutes)
  }

  /** toStringTime(date) */
  function ToStringTimeOf(t: int): string {
    ToStringTime(GetHours(t), GetMinutes(t))
  }

  /** minutesToTime: Java's / and % by 60, then toStringTime. */
  function MinutesToTime(minutes: int): string {
    ToStringTime(Quot(minutes, MinutesPerHour), Rem(minutes, MinutesPerHour))
  }

  /** Reads "hh:mm" with two digits each side; the inverse of the rendering. */
  function ParseClockText(s: string): Option<(int, int)> {
    if |s| == 5 && s[2] == ':' && AllDigits(s[..2]) && AllDigits(s[3..])
    then Some((ParseDigits(s[..2]), ParseDigits(s[3..])))
    else None
  }

  /** Two-digit hours and minutes render as five characters "hh:mm" and read back unchanged. */
  lemma ToStringTimeRoundTrip(hours: int, minutes: int)
    requires 0 <= hours < 100 && 0 <= minutes < 100
    ensures var s := ToStringTime(hours, minutes);
            && |s| == 5 && s[2] == ':'
            && s[0] == DigitChar(hours / 10) && s[1] == DigitChar(hours % 10)
            && s[3] == DigitChar(minutes / 10) && s[4] == DigitChar(minutes % 10)
            && ParseClockText(s) == Some((hours, minutes))
  {
    Format02dTwoDigits(hours);
    Format02dTwoDigits(minutes);
    var s := ToStringTime(hours, minutes);
    assert s[..2] == Format02d(hours);
    assert s[3..] == Format02d(minutes);
  }

  /** minutesToTime undoes convertToMinutes for non-negative hours and minutes 0..59. */
  lemma MinutesToTimeOfConvert(hours: int, minutes: int)
    requires 0 <= hours && 0 <= minutes < 60
    ensures MinutesToTime(ConvertToMinutes(hours, minutes)) == ToStringTime(hours, minutes)
  {
    var total := ConvertToMinutes(hours, minutes);
    assert total / 60 == hours && total % 60 == minutes;
    assert Quot(total, MinutesPerHour) == hours && Rem(total, MinutesPerHour) == minutes;
  }

  /** The minutes of the day of a date render as the date's own time string. */
  lemma MinutesToTimeOfDate(t: int)
    ensures MinutesToTime(ConvertToMinutesOf(t)) == ToStringTimeOf(t)
  {
    var h, m := GetHours(t), GetMinutes(t);
    assert ConvertToMinutesOf(t) == ConvertToMinutes(h, m);
    MinutesToTimeOfConvert(h, m);
  }

  /** Below 100 hours, minutesToTime renders "hh:mm" and convertToMinutes reads it back. */
  lemma MinutesToTimeRoundTrip(minutes: int)
    requires 0 <= minutes < 6000
    ensures var parsed := ParseClockText(MinutesToTime(minutes));
            && parsed == Some((minutes / 60, minutes % 60))
            && ConvertToMinutes(parsed.value.0, parsed.value.1) == minutes
  {
    var hours, rest := Quot(minutes, MinutesPerHour), Rem(minutes, MinutesPerHour);
    assert hours == minutes / 60 && rest == minutes % 60;
    ToStringTimeRoundTrip(hours, rest);
  }

  // ===========================================================================
  // Range predicates

  /** isBetween: not before fromDate and not after toDate. */
  predicate IsBetween(t: int, fromDate: int, toDate: int) {
    !(t < fromDate) && !(t > toDate)
  }

  /** isWithin: both ends of the checked interval lie in the range. */
  predicate IsWithin(startToCheck: int, endToCheck: int, startRange: int, endRange: int) {
    IsBetween(startToCheck, startRange, endRange) && IsBetween(endToCheck, startRange, endRange)
  }

  /** isBetween includes both ends of the range. */
  lemma IsBetweenInclusive(t: int, fromDate: int, toDate: int)
    ensures IsBetween(t, fromDate, toDate) <==> fromDate <= t <= toDate
    ensures fromDate <= toDate ==> IsBetween(fromDate, fromDate, toDate) && IsBetween(toDate, fromDate, toDate)
  {
  }

  /**
    isWithin is containment: for an ordered interval it holds exactly when every instant
    of the interval lies in the range.
  */
  lemma IsWithinIsContainment(startToCheck: int, endToCheck: int, startRange: int, endRange: int)
    requires startToCheck <= endToCheck
    ensures IsWithin(startToCheck, endToCheck, startRange, endRange)
        <==> forall x :: IsBetween(x, startToCheck, endToCheck) ==> IsBetween(x, startRange, endRange)
  {
    if forall x :: IsBetween(x, startToCheck, endToCheck) ==> IsBetween(x, startRange, endRange) {
      assert IsBetween(startToCheck, startToCheck, endToCheck);
      assert IsBetween(endToCheck, startToCheck, endToCheck);
    }
  }

  /** Overlap is not enough: an interval that starts before the range is rejected though it meets it. */
  lemma IsWithinIsNotOverlap(startToCheck: int, endToCheck: int, startRange: int, endRange: int)
    requires startToCheck < startRange <= endToCheck && startRange <= endRange
    ensures !IsWithin(startToCheck, endToCheck, startRange, endRange)
    ensures IsBetween(startRange, startToCheck, endToCheck) && IsBetween(startRange, startRange, endRange)
  {
  }

  // ===========================================================================
  // Formatters, ISO date text and strict validation

  /**
    A FastDateFormat: its pattern, its printer and its parser (None where the parser
    throws ParseException).
  */
  datatype Formatter = Formatter(pattern: string, format: int -> string, parse: string -> Option<int>)

  /** InvalidDateException: a message only. */
  datatype InvalidDateException = InvalidDateException(message: string)

  /** Format.ISO_8601_DATE_ONLY */
  const IsoDatePattern := "yyyy-MM-dd"

  /** The YEAR field of GregorianCalendar counts years of the era: 1 BC is year 1. */
  function YearOfEra(y: int): (r: int)
    ensures r >= 1
    ensures y >= 1 ==> r == y
  {
    if y >= 1 then y else 1 - y
  }

  /** The "yyyy-MM-dd" printer: year padded to four digits, month (from 1) and day to two. */
  function IsoDate(t: int): string {
    ZeroPad(YearOfEra(GetYear(t)), 4) + "-" + Format02d(GetMonth(t) + 1) + "-" + Format02d(GetDay(t))
  }

  /** toIsoStringDate: null in, null out. */
  function ToIsoStringDate(date: Option<int>): Option<string> {
    match date
    case None => None
    case Some(t) => Some(IsoDate(t))
  }

  /**
    toIsoStringDate gives null exactly for null; for a date of years 1 to 9999 it gives ten
    characters that read back as the date's year, month (from 1) and day.
  */
  lemma ToIsoStringDateOf(date: Option<int>)
    ensures ToIsoStringDate(date).Some? <==> date.Some?
    ensures date.Some? && 1 <= GetYear(date.value) <= 9999 ==>
              var s := ToIsoStringDate(date).value;
              && |s| == 10
              && ParseIsoDate(s) == Some(DateText(GetYear(date.value), GetMonth(date.value) + 1, GetDay(date.value)))
  {
    if date.Some? && 1 <= GetYear(date.value) <= 9999 {
      IsoDateRoundTrip(date.value);
    }
  }

  /** The numbers of a "yyyy-MM-dd" text as written (month from 1). */
  datatype DateText = DateText(year: int, month: int, day: int)

  /** Reads the fixed-width layout "dddd-dd-dd". */
  function ParseIsoDate(s: string): Option<DateText> {
    if |s| == 10 && s[4] == '-' && s[7] == '-'
       && AllDigits(s[..4]) && AllDigits(s[5..7]) && AllDigits(s[8..])
    then Some(DateText(ParseDigits(s[..4]), ParseDigits(s[5..7]), ParseDigits(s[8..])))
    else None
  }

  /** A lenient parse of "yyyy-MM-dd": the numbers read go through setDate unchecked. */
  function ParseIsoInstant(s: string): Option<int> {
    match ParseIsoDate(s)
    case None => None
    case Some(dt) => Some(SetDate(dt.year, dt.month - 1, dt.day))
  }

  /** Formatter.ISO_8601_DATE_ONLY */
  const IsoDateOnly := Formatter(IsoDatePattern, IsoDate, ParseIsoInstant)

  /** isSameDate: equal text under the formatter. */
  predicate IsSameDate(date1: int, date2: int, formatter: Formatter) {
    formatter.format(date1) == formatter.format(date2)
  }

  predicate OccursAt(text: string, part: string, i: int) {
    0 <= i && i + |part| <= |text| && text[i..i + |part|] == part
  }

  predicate Contains(text: string, part: string) {
    exists i :: 0 <= i <= |text| && OccursAt(text, part, i)
  }

  function InvalidUnitMessage(unit: string, value: string, pattern: string): string {
    "Invalid " + unit + " format for String: " + value + "; should be " + pattern
  }

  /**
    validateDateUnit: the parsed date, accepted only when printing it gives back the
    text exactly; otherwise an InvalidDateException naming the unit, the text and the pattern.
  */
  function ValidateDateUnit(value: string, formatter: Formatter, unit: string): (r: Result<int, InvalidDateException>)
    ensures r.Success? <==> formatter.parse(value).Some? && formatter.format(formatter.parse(value).value) == value
    ensures r.Success? ==> formatter.parse(value) == Some(r.value) && formatter.format(r.value) == value
    ensures r.Failure? ==> Contains(r.error.message, unit) && Contains(r.error.message, value)
                           && Contains(r.error.message, formatter.pattern)
  {
    var failure := Failure(InvalidDateException(InvalidUnitMessage(unit, value, formatter.pattern)));
    MessageNamesItsParts(unit, value, formatter.pattern);
    match formatter.parse(value)
    case None => failure
    case Some(parsed) => if formatter.format(parsed) == value then Success(parsed) else failure
  }

  lemma MessageNamesItsParts(unit: string, value: string, pattern: string)
    ensures Contains(InvalidUnitMessage(unit, value, pattern), unit)
    ensures Contains(InvalidUnitMessage(unit, value, pattern), value)
    ensures Contains(InvalidUnitMessage(unit, value, pattern), pattern)
  {
    var m := InvalidUnitMessage(unit, value, pattern);
    var i := |"Invalid "|;
    var j := i + |unit| + |" format for String: "|;
    var k := j + |value| + |"; should be "|;
    assert OccursAt(m, unit, i);
    assert OccursAt(m, value, j);
    assert OccursAt(m, pattern, k);
  }

  /** The printed text takes the layout "yyyy-MM-dd" whenever its year field has four digits. */
  lemma IsoDateLayout(t: int)
    ensures var s := IsoDate(t);
            var yearText := ZeroPad(YearOfEra(GetYear(t)), 4);
            && |yearText| >= 4
            && (|yearText| == 4 ==>
                  ParseIsoDate(s) == Some(DateText(YearOfEra(GetYear(t)), GetMonth(t) + 1, GetDay(t))))
            && (|yearText| > 4 ==> IsDigit(s[4]))
  {
    var y, m, d := YearOfEra(GetYear(t)), GetMonth(t) + 1, GetDay(t);
    var yearText := ZeroPad(y, 4);
    Format02dTwoDigits(m);
    Format02dTwoDigits(d);
    ParseZeroPad(y, 4);
    TextLayout(yearText, Format02d(m), Format02d(d));
  }

  /** Three digit fields joined by '-': the layout reads back field by field when the first has four digits. */
  lemma TextLayout(year: string, month: string, day: string)
    requires AllDigits(year) && |year| >= 4
    requires AllDigits(month) && |month| == 2 && AllDigits(day) && |day| == 2
    ensures var s := year + "-" + month + "-" + day;
            && (|year| == 4 ==> ParseIsoDate(s) == Some(DateText(ParseDigits(year), ParseDigits(month), ParseDigits(day))))
            && (|year| > 4 ==> IsDigit(s[4]))
  {
    if |year| == 4 {
      FourDigitYearLayout(year, month, day);
    } else {
      var s := year + "-" + month + "-" + day;
      assert s[4] == year[4];
    }
  }

  lemma FourDigitYearLayout(year: string, month: string, day: string)
    requires AllDigits(year) && |year| == 4
    requires AllDigits(month) && |month| == 2 && AllDigits(day) && |day| == 2
    ensures ParseIsoDate(year + "-" + month + "-" + day)
         == Some(DateText(ParseDigits(year), ParseDigits(month), ParseDigits(day)))
  {
    var s := year + "-" + month + "-" + day;
    assert |s| == 10 && s[4] == '-' && s[7] == '-';
    assert s[..4] == year;
    assert s[5] == month[0] && s[6] == month[1];
    assert s[5..7] == month;
    assert s[8..] == day;
  }

  /** For years 1 to 9999 the printed date reads back as its own year, month and day. */
  lemma IsoDateRoundTrip(t: int)
    requires 1 <= GetYear(t) <= 9999
    ensures |IsoDate(t)| == 10
    ensures ParseIsoDate(IsoDate(t)) == Some(DateText(GetYear(t), GetMonth(t) + 1, GetDay(t)))
  {
    assert Pow10(4) == 10000;
    ZeroPadWidth(GetYear(t), 4);
    IsoDateLayout(t);
  }

  /** With the ISO date formatter, isSameDate ignores the time: it compares calendar days. */
  lemma IsSameDateIsSameDay(a: int, b: int)
    requires 1 <= GetYear(a) <= 9999 && 1 <= GetYear(b) <= 9999
    ensures IsSameDate(a, b, IsoDateOnly) <==> DayNumber(a) == DayNumber(b)
  {
    if IsSameDate(a, b, IsoDateOnly) {
      IsoDateRoundTrip(a);
      IsoDateRoundTrip(b);
      EpochDayInjective(ToLocalDate(a), ToLocalDate(b));
    }
  }

  /** The printed date depends on the calendar day only. */
  lemma IsoDateSameDay(a: int, b: int)
    requires DayNumber(a) == DayNumber(b)
    ensures IsoDate(a) == IsoDate(b)
  {
    assert ToLocalDate(a) == ToLocalDate(b);
  }

  /** The lenient parse of a printed date of years 1 to 9999 is the midnight starting that day. */
  lemma ParseIsoInstantOfIsoDate(t: int)
    requires 1 <= GetYear(t) <= 9999
    ensures ParseIsoInstant(IsoDate(t)) == Some(ResetTime(t))
  {
    IsoDateRoundTrip(t);
    var month := GetMonth(t) + 1;
    assert ParseIsoInstant(IsoDate(t)) == Some(SetDate(GetYear(t), month - 1, GetDay(t)));
    assert month - 1 == GetMonth(t);
  }

  /** Strict validation with the ISO formatter accepts every printed date of years 1 to 9999, as its midnight. */
  lemma IsoValidationAccepts(t: int, unit: string)
    requires 1 <= GetYear(t) <= 9999
    ensures ValidateDateUnit(IsoDate(t), IsoDateOnly, unit) == Success(ResetTime(t))
  {
    ParseIsoInstantOfIsoDate(t);
    var start := ResetTime(t);
    SetTimeFromMidnight(t, 0, 0, 0, 0);
    SplitInstant(DayNumber(t), 0);
    IsoDateSameDay(start, t);
  }

  /**
    Strict validation with the ISO printer rejects, whatever the parser, a text whose month
    is not 01..12 or whose day is not 01..31; a day past the end of its month is rejected
    unless the parser produced a date before year 1.
  */
  lemma IsoValidationRejects(value: string, parse: string -> Option<int>, unit: string)
    requires ParseIsoDate(value).Some?
    ensures var dt := ParseIsoDate(value).value;
            var r := ValidateDateUnit(value, Formatter(IsoDatePattern, IsoDate, parse), unit);
            && (dt.month < 1 || dt.month > 12 || dt.day < 1 || dt.day > 31 ==> r.Failure?)
            && (1 <= dt.month <= 12 && dt.day > DaysInMonth(dt.year, dt.month - 1) ==>
                  r.Failure? || GetYear(r.value) < 1)
  {
    var r := ValidateDateUnit(value, Formatter(IsoDatePattern, IsoDate, parse), unit);
    if r.Success? {
      var t := r.value;
      assert IsoDate(t) == value;
      IsoDateLayout(t);
    }
  }

  /** The worked case: "2024-13-01" is not accepted as a date. */
  lemma MonthThirteenRejected()
    ensures ValidateDateUnit("2024-13-01", IsoDateOnly, "date").Failure?
  {
    var s := "2024-13-01";
    assert s[5..7] == "13";
    assert ParseDigits("13") == 13 by { assert "13"[..1] == "1"; assert "1"[..0] == []; }
    IsoValidationRejects(s, ParseIsoInstant, "date");
  }

  // ===========================================================================
  // Predicates against an explicit current instant

  /** isToday, with the clock reading passed in. */
  predicate IsToday(t: int, now: int) {
    IsSameDate(t, now, IsoDateOnly)
  }

  /** isInFuture, with the clock reading passed in: a null date is never in the future. */
  predicate IsInFuture(date: Option<int>, now: int) {
    date.Some? && now < date.value
  }

  /** isWithinDays: before the instant `days` days after now. */
  predicate IsWithinDays(t: int, days: int, now: int) {
    t < PlusDays(now, days)
  }

  predicate IsNotWithinDays(t: int, days: int, now: int) {
    !IsWithinDays(t, days, now)
  }

  /** getStartOfToday, with the clock reading passed in. */
  function GetStartOfToday(now: int): int {
    SetTimeEvent(now, StartOfDay)
  }

  /** getEndOfToday, with the clock reading passed in. */
  function GetEndOfToday(now: int): int {
    SetTimeEvent(now, EndOfDay)
  }

  /** Today runs from its first to its last millisecond, and now lies within it. */
  lemma TodayBounds(now: int)
    ensures IsBetween(now, GetStartOfToday(now), GetEndOfToday(now))
    ensures MillisecondsBetween(GetStartOfToday(now), GetEndOfToday(now)) == MsPerDay - 1
    ensures DaysBetween(GetStartOfToday(now), GetEndOfToday(now)) == 0
    ensures DaysBetween(GetStartOfToday(now), now) == 0
  {
    StartOfDayInstant(now);
    EndOfDayInstant(now);
    InstantSplit(now);
  }

  /** isToday is the same calendar day as now, at any time of either day. */
  lemma IsTodayIsSameDay(t: int, now: int)
    requires 1 <= GetYear(t) <= 9999 && 1 <= GetYear(now) <= 9999
    ensures IsToday(t, now) <==> DaysBetween(t, now) == 0
  {
    IsSameDateIsSameDay(t, now);
  }

  /**
    isWithinDays grows with the number of days, so isNotWithinDays shrinks with it; a date
    within zero or fewer days of now is not in the future.
  */
  lemma ClockPredicates(t: int, days: int, moreDays: int, now: int)
    requires days <= moreDays
    ensures IsWithinDays(t, days, now) ==> IsWithinDays(t, moreDays, now)
    ensures IsNotWithinDays(t, moreDays, now) ==> IsNotWithinDays(t, days, now)
    ensures days <= 0 && IsWithinDays(t, days, now) ==> !IsInFuture(Some(t), now)
  {
    assert days * MsPerDay <= moreDays * MsPerDay;
  }

  // ===========================================================================
  // Dates updated in place

  /** java.util.Date: a mutable instant. */
  class Date {
    var millis: int

    constructor (millis: int)
      ensures this.millis == millis
    {
      this.millis := millis;
    }
  }

  /** java.util.Calendar under a fixed offset: a mutable instant read as fields. */
  class Calendar {
    var millis: int

    constructor (millis: int)
      ensures this.millis == millis
    {
      this.millis := millis;
    }
  }

  /** toCalendar: a new Calendar at the date's instant. */
  method ToCalendar(date: Date) returns (calendar: Calendar)
    ensures fresh(calendar) && calendar.millis == date.millis
  {
    calendar := new Calendar(date.millis);
  }

  /** setTimeOnDate(date, h, m, s, ms): overwrites date with setTime of itself. */
  method SetTimeOnDate(date: Date, hours: int, minutes: int, seconds: int, milliseconds: int)
    modifies date
    ensures date.millis == SetTime(old(date.millis), hours, minutes, seconds, milliseconds)
  {
    var calendar := ToCalendar(date);
    date.millis := SetDateTime(GetYear(calendar.millis), GetMonth(calendar.millis), GetDay(calendar.millis),
                               hours, minutes, seconds, milliseconds);
  }

  /** setTimeOnDate(date, h, m) */
  method SetTimeOnDateHoursMinutes(date: Date, hours: int, minutes: int)
    modifies date
    ensures date.millis == SetTimeHoursMinutes(old(date.millis), hours, minutes)
  {
    SetTimeOnDate(date, hours, minutes, 0, 0);
  }

  /** setTimeEventOnDate: overwrites date with setTimeEvent of itself. */
  method SetTimeEventOnDate(date: Date, event: TimeEvent)
    modifies date
    ensures date.millis == SetTimeEvent(old(date.millis), event)
  {
    date.millis := SetTimeEvent(date.millis, event);
  }

  /**
    setMonthBoundaries(start, end, year, month): writes the start of the month into one
    slot and then the end into the other; nothing else changes. Passed the same Date
    twice, the end is what remains.
  */
  method SetMonthBoundaries(startDateToSet: Date, endDateToSet: Date, year: int, month: int)
    modifies startDateToSet, endDateToSet
    ensures endDateToSet.millis == EndOfMonth(year, month)
    ensures startDateToSet != endDateToSet ==> startDateToSet.millis == StartOfMonth(year, month)
  {
    var startOfMonth := SetTimeEvent(SetDate(year, month, 1), StartOfDay);
    startDateToSet.millis := startOfMonth;
    var endOfMonth := SetTimeEvent(SetDate(year, month + 1, 0), EndOfDay);
    endDateToSet.millis := endOfMonth;
  }

  /** setMonthBoundaries(start, end, dateWithYear, dateWithMonth): year and month are read first. */
  method SetMonthBoundariesOf(startDateToSet: Date, endDateToSet: Date, dateWithYear: Date, dateWithMonth: Date)
    modifies startDateToSet, endDateToSet
    ensures endDateToSet.millis == EndOfMonth(GetYear(old(dateWithYear.millis)), GetMonth(old(dateWithMonth.millis)))
    ensures startDateToSet != endDateToSet ==>
              startDateToSet.millis == StartOfMonth(GetYear(old(dateWithYear.millis)), GetMonth(old(dateWithMonth.millis)))
  {
    SetMonthBoundaries(startDateToSet, endDateToSet, GetYear(dateWithYear.millis), GetMonth(dateWithMonth.millis));
  }

  /** addDays(Date, days) */
  method AddDays(dateToAdjust: Date, daysToAdd: int)
    modifies dateToAdjust
    ensures dateToAdjust.millis == PlusDays(old(dateToAdjust.millis), daysToAdd)
  {
    var calendar := ToCalendar(dateToAdjust);
    calendar.millis := PlusDays(calendar.millis, daysToAdd);
    dateToAdjust.millis := calendar.millis;
  }

  /** addDays(Calendar, days): moves the calendar and returns a new Date at its instant. */
  method AddDaysToCalendar(dateToAdjust: Calendar, daysToAdd: int) returns (date: Date)
    modifies dateToAdjust
    ensures dateToAdjust.millis == PlusDays(old(dateToAdjust.millis), daysToAdd)
    ensures fresh(date) && date.millis == dateToAdjust.millis
  {
    dateToAdjust.millis := PlusDays(dateToAdjust.millis, daysToAdd);
    date := new Date(dateToAdjust.millis);
  }

  /** addMinutes(Date, minutes) */
  method AddMinutes(dateToAdjust: Date, minutesToAdd: int)
    modifies dateToAdjust
    ensures dateToAdjust.millis == PlusMinutes(old(dateToAdjust.millis), minutesToAdd)
  {
    var calendar := ToCalendar(dateToAdjust);
    calendar.millis := PlusMinutes(calendar.millis, minutesToAdd);
    dateToAdjust.millis := calendar.millis;
  }

  /** minusMinutes: addMinutes of the negated count. */
  method MinusMinutes(dateToAdjust: Date, minutesToSubtract: int)
    modifies dateToAdjust
    ensures dateToAdjust.millis == PlusMinutes(old(dateToAdjust.millis), -minutesToSubtract)
  {
    AddMinutes(dateToAdjust, -minutesToSubtract);
  }

  /**
    getDatesAsList: numberOfDays dates (none when it is not positive), the i-th being
    startDate moved i days on; startDate itself is left as it was.
  */
  method GetDatesAsList(startDate: Date, numberOfDays: int) returns (dates: seq<int>)
    ensures |dates| == if numberOfDays > 0 then numberOfDays else 0
    ensures forall i :: 0 <= i < |dates| ==> dates[i] == PlusDays(startDate.millis, i)
  {
    dates := [];
    var i := 0;
    while i < numberOfDays
      invariant 0 <= i <= if numberOfDays > 0 then numberOfDays else 0
      invariant |dates| == i
      invariant forall k :: 0 <= k < i ==> dates[k] == PlusDays(startDate.millis, k)
    {
      var calendar := ToCalendar(startDate);
      var date := AddDaysToCalendar(calendar, i);
      dates := dates + [date.millis];
      i := i + 1;
    }
  }
}
