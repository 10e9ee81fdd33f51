# DateTimeUtils in Dafny

A verified model of the calendar logic of `uk.cjack.utilities.DateTimeUtils`, a
static utility class over `java.util.Date`, `java.util.Calendar` and `java.time.LocalDate`.

A date is an instant: milliseconds since 1970-01-01T00:00:00Z, read in one fixed time
zone (UTC). The fields follow `java.util.Calendar`:

- months run 0..11 and days of the month start at 1;
- hours run 0..23;
- days of the week run from Sunday = 1.

The project has four modules:

- `Gregorian` is the proleptic Gregorian calendar that `Calendar` and `LocalDate` compute
  with. It covers leap years, month lengths, date to day number and back (a proved
  bijection on existing dates), lenient carries of out-of-range months and days, and the
  order of dates by (month, day).
- `DecimalText` covers Java's `%02d` rendering, zero-padded number fields and the digit
  parser that reads them back.
- `Wrappers` holds `Option` (for `null`) and `Result` (for a thrown `InvalidDateException`).
- `DateTimeUtils` is the utility class itself:
  - the field getters;
  - lenient `setDateTime`/`setDate`;
  - the `setTime` family;
  - the `TimeEvent` enum and `setTimeEvent`;
  - month and year boundaries;
  - the `*Between` durations, with Java's truncating division written out as `Quot`/`Rem`;
  - `convertToMinutes`, `minutesToTime` and `toStringTime`;
  - `isBetween`/`isWithin`, `isSameDate` and `validateDateUnit`;
  - the clock predicates, with the current instant passed in.

  Utilities that return a new date are functions. Those that overwrite a caller's `Date`
  or `Calendar` in place are methods over the classes `Date` and `Calendar`, each holding
  a mutable `millis` field.

Where the code and its own description differ, the model follows the code:

- `setTimeEvent` switches over the enum. All five constants are handled, so the `result == null`
  fallback (DateTimeUtils.java:154-157) cannot be reached with a non-null event, and the
  model's `match` has no default.
- The milliseconds argument of `setDateTime`/`setTime` sets the field of a cleared
  lenient calendar. It does not add to an existing value. A value of −1 borrows one
  millisecond from the composed time (`SetDateTimeMillisMinusOne`).
- `isWithin` is containment of one interval in another, not overlap (`IsWithinIsContainment`,
  `IsWithinIsNotOverlap`).

## Model

Every source path below is relative to the repository root; `DateTimeUtils.java` stands for
`src/main/java/uk/cjack/utilities/DateTimeUtils.java`.

| member | source | states |
|---|---|---|
| DateTimeUtils.ToLocalDate | src/main/java/uk/cjack/utilities/DateTimeUtils.java:362-364 | the calendar date of an instant exists in the calendar and has the instant's day number |
| DateTimeUtils.GetMonth | src/main/java/uk/cjack/utilities/DateTimeUtils.java:650-653 | Calendar.MONTH is 0..11 |
| DateTimeUtils.GetDay | src/main/java/uk/cjack/utilities/DateTimeUtils.java:634-637 | DAY_OF_MONTH is between 1 and the length of that month of that year |
| DateTimeUtils.GetHours | src/main/java/uk/cjack/utilities/DateTimeUtils.java:618-621 | HOUR_OF_DAY is 0..23 |
| DateTimeUtils.GetMinutes | src/main/java/uk/cjack/utilities/DateTimeUtils.java:681-684 | MINUTE is 0..59 |
| DateTimeUtils.GetSeconds | src/main/java/uk/cjack/utilities/DateTimeUtils.java:694-697 | SECOND is 0..59 |
| DateTimeUtils.GetDayOfWeek | src/main/java/uk/cjack/utilities/DateTimeUtils.java:602-605 | DAY_OF_WEEK is in 1..7 |
| DateTimeUtils.DayOfWeekFromSunday | src/main/java/uk/cjack/utilities/DateTimeUtils.java:586-605 | Sunday 4 January 1970 is day 1 of the week, and every date's day of the week is one more than its distance in days from that Sunday, modulo 7 (Sunday = 1 .. Saturday = 7) |
| DateTimeUtils.DayOfWeekNextDay | src/main/java/uk/cjack/utilities/DateTimeUtils.java:586-605 | the day after a date is the next day of the week, Saturday (7) wrapping to Sunday (1) |
| DateTimeUtils.SetDateTimeFields | src/main/java/uk/cjack/utilities/DateTimeUtils.java:280-293 | setDateTime with an existing date and in-range time reads back exactly those seven fields (getYear, getMonth, getDay, getHours, getMinutes, getSeconds, MILLISECOND) |
| DateTimeUtils.SetDateTimeToMinuteFields | src/main/java/uk/cjack/utilities/DateTimeUtils.java:264-266 | the five-argument setDateTime with an existing date and in-range hour and minute reads back as those five fields, with seconds and milliseconds 0 |
| DateTimeUtils.FieldsCompose | src/main/java/uk/cjack/utilities/DateTimeUtils.java:280-293 | composing an instant's own fields with setDateTime gives the instant back |
| DateTimeUtils.SetDateDayZero | src/main/java/uk/cjack/utilities/DateTimeUtils.java:250-252 | setDate(y, m + 1, 0) is the last day of month m, 29 February in leap years, read back as that date at midnight |
| DateTimeUtils.SetDateTimeMillisMinusOne | src/main/java/uk/cjack/utilities/DateTimeUtils.java:141-146 | millisecond −1 is one millisecond before the time composed with millisecond 0 |
| DateTimeUtils.SetDateTimeMonthCarry | src/main/java/uk/cjack/utilities/DateTimeUtils.java:280-293 | a month value 12 larger is the same month of the next year (month 12 is January of year + 1) |
| Gregorian.LenientInRange | src/main/java/uk/cjack/utilities/DateTimeUtils.java:287-291 | the lenient day number agrees with the calendar's own for months 0..11 |
| Gregorian.LenientMonthCarry | src/main/java/uk/cjack/utilities/DateTimeUtils.java:287-291 | a month value 12 larger is the same month one year later |
| Gregorian.LastDayOfMonth | src/main/java/uk/cjack/utilities/DateTimeUtils.java:314-319 | for months 0..11, day 0 of month m + 1 is the last day of month m (31 December for m = 11), and the first of month m + 1 is the day after it |
| Gregorian.LenientNextMonth | src/main/java/uk/cjack/utilities/DateTimeUtils.java:287-291 | the first of month m + 1 is the first of month m plus the length of month m |
| Gregorian.CivilFromEpochDay | src/main/java/uk/cjack/utilities/DateTimeUtils.java:362-364 | every day number has an existing calendar date with that day number |
| Gregorian.EpochDayRoundTrip | src/main/java/uk/cjack/utilities/DateTimeUtils.java:362-364 | every existing date is the date of its own day number |
| Gregorian.EpochDayInjective | src/main/java/uk/cjack/utilities/DateTimeUtils.java:362-364 | distinct existing dates have distinct day numbers |
| Gregorian.CivilOrder | src/main/java/uk/cjack/utilities/DateTimeUtils.java:561-566 | existing dates are ordered by day number exactly as by (proleptic month, day) |
| DateTimeUtils.SetTimeFields | src/main/java/uk/cjack/utilities/DateTimeUtils.java:47-60 | setTime keeps year, month and day of the date and sets the four time fields to the given in-range values |
| DateTimeUtils.SetTimeFromMidnight | src/main/java/uk/cjack/utilities/DateTimeUtils.java:47-60 | for any time values, setTime is the date's midnight plus the leniently composed time |
| DateTimeUtils.SetTimeHoursMinutesFields | src/main/java/uk/cjack/utilities/DateTimeUtils.java:70-74 | the two-field overload sets hours and minutes and zeroes seconds and milliseconds |
| DateTimeUtils.SetTimeOfFields | src/main/java/uk/cjack/utilities/DateTimeUtils.java:178-193 | copying the time of another date takes its hours and minutes, and its seconds only when asked; the two-date overload sets seconds and milliseconds to 0 |
| DateTimeUtils.EpochDate | src/main/java/uk/cjack/utilities/DateTimeUtils.java:203-205 | instant 0 is 1 January 1970 |
| DateTimeUtils.DummyDateFields | src/main/java/uk/cjack/utilities/DateTimeUtils.java:203-205 | the dummy date is 1970-01-01 with the given hours and minutes, i.e. that many milliseconds since the epoch |
| DateTimeUtils.DummyDateOfFields | src/main/java/uk/cjack/utilities/DateTimeUtils.java:214-220 | null gives null; a date gives 1 January 1970 at its hours and minutes, with seconds and milliseconds 0 |
| DateTimeUtils.SetTimeOnDate | src/main/java/uk/cjack/utilities/DateTimeUtils.java:85-98 | overwrites only the passed date, with setTime of its old value |
| DateTimeUtils.SetTimeOnDateHoursMinutes | src/main/java/uk/cjack/utilities/DateTimeUtils.java:107-111 | overwrites only the passed date, with setTime(date, h, m) of its old value |
| DateTimeUtils.StartOfDayFields | src/main/java/uk/cjack/utilities/DateTimeUtils.java:137-139 | START_OF_DAY is the same date at 00:00:00.000, the last midnight not after the date |
| DateTimeUtils.EndOfDayFields | src/main/java/uk/cjack/utilities/DateTimeUtils.java:140-143 | END_OF_DAY is the same date at 23:59:59.999, 86 399 999 ms after START_OF_DAY, not before the date |
| DateTimeUtils.StartOfYearFields | src/main/java/uk/cjack/utilities/DateTimeUtils.java:134-136 | START_OF_YEAR is 1 January 00:00:00.000 of the date's year, less than a year before the date |
| DateTimeUtils.EndOfYearFields | src/main/java/uk/cjack/utilities/DateTimeUtils.java:144-147 | END_OF_YEAR is 31 December 23:59:59.999, one ms before 1 January of the next year, not before the date |
| DateTimeUtils.StartOfDayInstant | src/main/java/uk/cjack/utilities/DateTimeUtils.java:137-139 | START_OF_DAY is the midnight starting the date's day |
| DateTimeUtils.EndOfDayInstant | src/main/java/uk/cjack/utilities/DateTimeUtils.java:140-143 | END_OF_DAY is 23:59:59.999 of the date's own day, although it is computed as millisecond -1 of the next day |
| DateTimeUtils.OneWeekAgoFields | src/main/java/uk/cjack/utilities/DateTimeUtils.java:148-152 | ONE_WEEK_AGO is a midnight exactly seven days before START_OF_DAY, seven calendar days before the date |
| DateTimeUtils.MidnightStartOfDay | src/main/java/uk/cjack/utilities/DateTimeUtils.java:167-169 | resetTime leaves a midnight unchanged |
| DateTimeUtils.SetTimeEventOnDate | src/main/java/uk/cjack/utilities/DateTimeUtils.java:119-121 | overwrites only the passed date, with setTimeEvent of its old value |
| DateTimeUtils.GetStartOfYearFields | src/main/java/uk/cjack/utilities/DateTimeUtils.java:723-725 | getStartOfYear(y) is 1 January of y at 00:00:00.000 |
| DateTimeUtils.GetEndOfYearFields | src/main/java/uk/cjack/utilities/DateTimeUtils.java:751-753 | getEndOfYear(y) is 31 December 23:59:59.999, equals END_OF_YEAR of any date in y, and is one ms before getStartOfYear(y + 1) |
| DateTimeUtils.StartOfMonthInstant | src/main/java/uk/cjack/utilities/DateTimeUtils.java:311-312 | the start slot is midnight of the first of the month, for any month value |
| DateTimeUtils.EndOfMonthInstant | src/main/java/uk/cjack/utilities/DateTimeUtils.java:314-320 | the end slot is one ms before the first of the next month, for any month value |
| DateTimeUtils.MonthEndIsLastDay | src/main/java/uk/cjack/utilities/DateTimeUtils.java:314-320 | for months 0..11 the end slot is the last day of the month at 23:59:59.999 |
| DateTimeUtils.MonthBoundaryFields | src/main/java/uk/cjack/utilities/DateTimeUtils.java:303-323 | for months 0..11, day 1 at 00:00:00.000 and the last day of the month at 23:59:59.999 (31 December for month 11) |
| DateTimeUtils.MonthBoundariesContiguous | src/main/java/uk/cjack/utilities/DateTimeUtils.java:303-323 | each month ends one ms before the next month starts and covers exactly its number of days |
| DateTimeUtils.FebruaryEnd | src/main/java/uk/cjack/utilities/DateTimeUtils.java:314-320 | February ends on the 29th in leap years and the 28th otherwise |
| DateTimeUtils.SetMonthBoundaries | src/main/java/uk/cjack/utilities/DateTimeUtils.java:303-323 | writes only the two slots: end gets the end of the month; start gets the start of the month unless it is the same Date as end |
| DateTimeUtils.SetMonthBoundariesOf | src/main/java/uk/cjack/utilities/DateTimeUtils.java:333-338 | as SetMonthBoundaries with the year of one date and the month of another, read before writing |
| DateTimeUtils.PlusDaysShiftsDate | src/main/java/uk/cjack/utilities/DateTimeUtils.java:857-861 | adding n days moves the calendar date n days and keeps hours, minutes, seconds and milliseconds; daysBetween is n |
| DateTimeUtils.PlusMinutesInverse | src/main/java/uk/cjack/utilities/DateTimeUtils.java:893-924 | subtracting the added minutes restores the date; minutesBetween counts exactly the minutes added |
| DateTimeUtils.AddDays | src/main/java/uk/cjack/utilities/DateTimeUtils.java:857-861 | overwrites only the passed date, moved by the given days |
| DateTimeUtils.AddDaysToCalendar | src/main/java/uk/cjack/utilities/DateTimeUtils.java:870-873 | moves the passed calendar and returns a new date at its new instant |
| DateTimeUtils.AddMinutes | src/main/java/uk/cjack/utilities/DateTimeUtils.java:893-897 | overwrites only the passed date, moved by the given minutes |
| DateTimeUtils.MinusMinutes | src/main/java/uk/cjack/utilities/DateTimeUtils.java:922-924 | overwrites only the passed date, moved back by the given minutes |
| DateTimeUtils.GetDatesAsList | src/main/java/uk/cjack/utilities/DateTimeUtils.java:442-453 | max(n, 0) dates, the i-th being the start date moved i days |
| DateTimeUtils.ToCalendar | src/main/java/uk/cjack/utilities/DateTimeUtils.java:350-354 | a new calendar at the date's instant |
| DateTimeUtils.QuotTruncates | src/main/java/uk/cjack/utilities/DateTimeUtils.java:477-501 | Java's division truncates toward zero: the remainder takes the dividend's sign and is smaller than the divisor; negating the dividend negates the quotient |
| DateTimeUtils.BetweenTruncates | src/main/java/uk/cjack/utilities/DateTimeUtils.java:466-501 | seconds/minutes/hours between are the elapsed milliseconds truncated toward zero in their unit (hours too, though computed from truncated minutes); swapping the dates negates each |
| DateTimeUtils.DaysBetweenDateOnly | src/main/java/uk/cjack/utilities/DateTimeUtils.java:510-515 | daysBetween is the difference of calendar days, ignores the time of day, is antisymmetric and additive |
| DateTimeUtils.LocalDatePlusDays | src/main/java/uk/cjack/utilities/DateTimeUtils.java:547-552 | plusDays yields an existing date that many days later |
| DateTimeUtils.DaysSpannedInclusive | src/main/java/uk/cjack/utilities/DateTimeUtils.java:547-552 | daysSpanned is daysBetween + 1 |
| DateTimeUtils.DaysBetweenExample | src/main/java/uk/cjack/utilities/DateTimeUtils.java:510-552 | 2024-01-01 to 2024-01-10: 9 days between, 10 days spanned |
| DateTimeUtils.MonthsBetweenWholeMonths | src/main/java/uk/cjack/utilities/DateTimeUtils.java:561-566 | for end not before start, whole months: the month difference less one when the end's day is earlier than the start's; swapping negates |
| DateTimeUtils.YearsBetweenWholeYears | src/main/java/uk/cjack/utilities/DateTimeUtils.java:575-580 | for end not before start, the year difference less one when the end's (month, day) is earlier in the year; swapping negates |
| DateTimeUtils.ConvertToMinutesOf | src/main/java/uk/cjack/utilities/DateTimeUtils.java:372-378 | minutes into the day, 0..1439 |
| DateTimeUtils.MinutesToTimeOfConvert | src/main/java/uk/cjack/utilities/DateTimeUtils.java:786-789 | minutesToTime(convertToMinutes(h, m)) is toStringTime(h, m) for h >= 0 and m in 0..59 |
| DateTimeUtils.MinutesToTimeOfDate | src/main/java/uk/cjack/utilities/DateTimeUtils.java:372-378 | minutesToTime of a date's minutes of the day is toStringTime of the date |
| DateTimeUtils.ToStringTimeRoundTrip | src/main/java/uk/cjack/utilities/DateTimeUtils.java:843-845 | for 0..99 hours and minutes, "%02d:%02d" gives five characters hh:mm that read back as the same numbers |
| DateTimeUtils.MinutesToTimeRoundTrip | src/main/java/uk/cjack/utilities/DateTimeUtils.java:786-789 | below 100 hours, minutesToTime renders the hours and remaining minutes, and convertToMinutes of them is the input |
| DecimalText.Format02dTwoDigits | src/main/java/uk/cjack/utilities/DateTimeUtils.java:1097 | "%02d" of 0..99 is exactly the two decimal digits and reads back as the number |
| DecimalText.ParseZeroPad | src/main/java/uk/cjack/utilities/DateTimeUtils.java:1088 | zero-padded numbers read back as themselves |
| DecimalText.ZeroPadWidth | src/main/java/uk/cjack/utilities/DateTimeUtils.java:1088 | a number below 10^w is padded to exactly w digits |
| DateTimeUtils.IsBetweenInclusive | src/main/java/uk/cjack/utilities/DateTimeUtils.java:969-971 | isBetween holds exactly when from <= date <= to, both ends included |
| DateTimeUtils.IsWithinIsContainment | src/main/java/uk/cjack/utilities/DateTimeUtils.java:982-988 | isWithin holds exactly when every instant of the checked interval is in the range |
| DateTimeUtils.IsWithinIsNotOverlap | src/main/java/uk/cjack/utilities/DateTimeUtils.java:975-988 | an interval starting before the range is rejected even though it meets the range |
| DateTimeUtils.ValidateDateUnit | src/main/java/uk/cjack/utilities/DateTimeUtils.java:1042-1062 | success exactly when the text parses and prints back identically, returning the parsed date; otherwise the error message names the unit, the text and the pattern |
| DateTimeUtils.MessageNamesItsParts | src/main/java/uk/cjack/utilities/DateTimeUtils.java:1056-1058 | the error message contains the unit, the text and the pattern |
| DateTimeUtils.YearOfEra | src/main/java/uk/cjack/utilities/DateTimeUtils.java:814-820 | the printed year is at least 1 and equals the year from year 1 on |
| DateTimeUtils.IsoDateLayout | src/main/java/uk/cjack/utilities/DateTimeUtils.java:814-820 | with a four-digit year the printed date reads back as (year of era, month from 1, day); a longer year pushes a digit where the first '-' would be |
| DateTimeUtils.ToIsoStringDateOf | src/main/java/uk/cjack/utilities/DateTimeUtils.java:814-820 | null gives null and a date gives a text; for years 1..9999 it is ten characters that read back as the date's year, month (from 1) and day |
| DateTimeUtils.IsoDateRoundTrip | src/main/java/uk/cjack/utilities/DateTimeUtils.java:814-820 | for years 1..9999 the printed date is ten characters and reads back as its own year, month and day |
| DateTimeUtils.IsoDateSameDay | src/main/java/uk/cjack/utilities/DateTimeUtils.java:814-820 | the printed date depends only on the calendar day |
| DateTimeUtils.IsSameDateIsSameDay | src/main/java/uk/cjack/utilities/DateTimeUtils.java:1020-1022 | with the yyyy-MM-dd formatter, isSameDate holds exactly when the two dates are the same calendar day (years 1..9999) |
| DateTimeUtils.ParseIsoInstantOfIsoDate | src/main/java/uk/cjack/utilities/DateTimeUtils.java:1046-1048 | parsing a printed date gives the midnight starting that day |
| DateTimeUtils.IsoValidationAccepts | src/main/java/uk/cjack/utilities/DateTimeUtils.java:1042-1062 | strict validation accepts every printed date of years 1..9999, returning its midnight |
| DateTimeUtils.IsoValidationRejects | src/main/java/uk/cjack/utilities/DateTimeUtils.java:1042-1062 | whatever the parser, a text with month outside 01..12 or day outside 01..31 is rejected; a day past the month's end is rejected unless the parse lands before year 1 |
| DateTimeUtils.MonthThirteenRejected | src/main/java/uk/cjack/utilities/DateTimeUtils.java:1042-1062 | "2024-13-01" is rejected as a yyyy-MM-dd date |
| DateTimeUtils.TodayBounds | src/main/java/uk/cjack/utilities/DateTimeUtils.java:732-743 | getStartOfToday and getEndOfToday bracket now, 86 399 999 ms apart on the same calendar day |
| DateTimeUtils.IsTodayIsSameDay | src/main/java/uk/cjack/utilities/DateTimeUtils.java:1030-1032 | isToday holds exactly when the date is on now's calendar day (years 1..9999) |
| DateTimeUtils.ClockPredicates | src/main/java/uk/cjack/utilities/DateTimeUtils.java:952-1011 | isWithinDays grows with the number of days and isNotWithinDays shrinks with it; a date within zero or fewer days of now is not in the future |

## Left out

- Reading the clock: `getCurrentYear`, `getCurrentMonth`, `addDays(long)` and `addMinutes(long)` read the current time (`new Date()` or `Calendar.getInstance()`). With the instant passed in they are `GetYear`, `GetMonth`, `PlusDays` and `PlusMinutes` of it, so they get no functions of their own. `getStartOfToday`, `getEndOfToday`, `isToday`, `isInFuture` and `isWithinDays`/`isNotWithinDays` take the current instant as a parameter `now`.
- Time zones and daylight saving: `getTimeZoneOffsetMillis`, `isCurrentlyDST`, and any offset other than a fixed UTC. These depend on the platform's zone database.
- `daysBetweenExact` (both overloads): floating-point division.
- Formatter internals:
  - `convertFormat`, `iso8601StringToDate`, `toIsoStringDateTime`, `setTimeOnDummyDate(String)`, and the locale patterns of the `Formatter` constants are FastDateFormat parsing and printing.
  - `validateDateUnit` and `isSameDate` take the formatter as an abstract printer/parser pair.
  - Only the `yyyy-MM-dd` printer is written out. Its parser is a lenient reading of the fixed layout.
- IsSameDateIsSameDay and IsTodayIsSameDay: stated for years 1..9999 only. For later years the texts also differ between different days, because the zero-padded year reads back unchanged, but the proof covers only the fixed ten-character layout.
- ParseIsoInstant: reads exactly four year digits. FastDateParser reads any number of year digits before the first '-', so for a year above 9999 (`"10000-01-01"`) `validateDateUnit` with `ISO_8601_DATE_ONLY` succeeds in the source and fails in the model. `IsoValidationAccepts` covers years 1..9999 only.
- Logging: the `LOGGER` calls are side output only.
- `InvalidDateException` is the error side of a `Result`, carrying its message.
- Java `int` and `long` widths are not modelled:
  - `Math.toIntExact` overflow in `addDays`/`addMinutes`;
  - the `(int)` casts in `minutesBetween` and the `*Between` day, month and year functions;
  - overflow in `convertToMinutes`.
  Integers are unbounded.
- GetYear: returns the proleptic year. `Calendar.YEAR` counts years of the era, which differs before year 1. The `yyyy-MM-dd` printer uses the year of era, as `FastDateFormat` does.
- Gregorian.CivilFromEpochDay: defined as the one existing date whose day number is the given day (existence and uniqueness are proved), not by the arithmetic `LocalDate.ofEpochDay` uses, so it is a specification and is not compiled. The calendar is proleptic Gregorian for all years. `GregorianCalendar` switches to the Julian calendar before 15 October 1582, so results agree only after that date.
- ValidateDateUnit: the message is built by concatenation. The source passes `"Invalid " + unit + …` as a format string, so a unit containing `%` would be read as a format directive there.
- GetDatesAsList: returns the instants of the dates rather than a `LinkedList` of new `Date` objects.
- `toMilliseconds` is `date.getTime()`, the `millis` field itself.
