/**
  ECMAScript time values and the calendar arithmetic of the `Date` object, with the
  local time zone fixed to UTC (so `setHours` and `setUTCHours` coincide and
  `new Date(y, m, d)` is UTC midnight).

  A time value is an integer count of milliseconds since 1970-01-01T00:00:00Z.
  Months are numbered 0 (January) to 11 (December) and dates from 1, as in
  section 21.4.1 of ECMA-262. `MakeDay` normalises an out-of-range month or date the
  way ECMA-262 does: month 13 is February of the next year, and day 31 of February
  rolls forward into March instead of being clamped.
*/
module Calendar {

  const MsPerDay: int := 86_400_000

  /** Milliseconds since the epoch, UTC. */
  type Time = int

  /** A calendar date: `month` is 0-based, `date` is the day of the month. */
  datatype Civil = Civil(year: int, month: int, date: int)

  /** DayFromTime(t): the number of whole days since the epoch (floor division). */
  function DayFromTime(t: Time): int
  {
    t / MsPerDay
  }

  /** TimeWithinDay(t): milliseconds since midnight of t's day. */
  function TimeWithinDay(t: Time): (r: int)
    ensures 0 <= r < MsPerDay
    ensures t == DayFromTime(t) * MsPerDay + r
  {
    t % MsPerDay
  }

  function MakeTime(hour: int, min: int, sec: int, ms: int): int
  {
    hour * 3_600_000 + min * 60_000 + sec * 1000 + ms
  }

  /** MakeDate(day, time): the time value `time` milliseconds into day number `day`. */
  function MakeDate(day: int, time: int): (t: Time)
    ensures 0 <= time < MsPerDay ==> DayFromTime(t) == day && TimeWithinDay(t) == time
  {
    day * MsPerDay + time
  }

  predicate IsLeapYear(year: int)
  {
    year % 4 == 0 && (year % 100 != 0 || year % 400 == 0)
  }

  function DaysInMonth(year: int, month: int): (n: int)
    requires 0 <= month < 12
    ensures 28 <= n <= 31
  {
    if month == 1 then (if IsLeapYear(year) then 29 else 28)
    else if month == 3 || month == 5 || month == 8 || month == 10 then 30
    else 31
  }

  ghost predicate ValidCivil(c: Civil)
  {
    0 <= c.month < 12 && 1 <= c.date <= DaysInMonth(c.year, c.month)
  }

  /** The month that follows (year, month). */
  function NextMonth(year: int, month: int): Civil
    requires 0 <= month < 12
  {
    if month == 11 then Civil(year + 1, 0, 1) else Civil(year, month + 1, 1)
  }

  // ---------------------------------------------------------------------------
  // Days from civil. Years are counted from March so that the leap day is the
  // last day of a year; 400 Gregorian years are exactly 146097 days.

  /** Offset of the first day of month `mp` from March 1; mp = 0 is March, 11 is February. */
  function MarchOffset(mp: int): int
  {
    (153 * mp + 2) / 5
  }

  /** Day number of March 1 of `year`: 365 days a year plus the leap days before it. */
  function MarchFirst(year: int): int
  {
    365 * year + year / 4 - year / 100 + year / 400 - 719468
  }

  /** Day number of the first day of the month with index k = 12 * year + month. Month
      index k - 2 counts months from March of year 0, so its quotient by 12 is the
      March-based year and its remainder the month within it; January and February are
      the last months of the March-based year before. */
  function MonthStart(k: int): int
  {
    MarchFirst((k - 2) / 12) + MarchOffset((k - 2) % 12)
  }

  /** MakeDay of ECMA-262: the day number of date `date` of month `month` of `year`, for
      any integers. ECMA-262 first normalises the month to year + floor(month / 12) and
      month modulo 12, which names the same month index 12 * year + month; a date past
      the end of the month rolls over into the following months. */
  function MakeDay(year: int, month: int, date: int): int
  {
    MonthStart(12 * year + month) + date - 1
  }

  // ---------------------------------------------------------------------------
  // Civil from days: the inverse of MakeDay on valid dates.

  /** The March-based month containing day `doy` of a March-based year, found by
      walking forward from month `mp` while the next month has already begun. */
  function MarchMonth(doy: int, mp: int): int
    requires 0 <= mp < 12
    decreases 12 - mp
  {
    if mp == 11 || doy < MarchOffset(mp + 1) then mp else MarchMonth(doy, mp + 1)
  }

  /** The month MarchMonth picks is the one whose days include `doy`. */
  lemma {:induction false} MarchMonthFound(doy: int, mp: int)
    requires 0 <= mp < 12 && MarchOffset(mp) <= doy
    ensures var r := MarchMonth(doy, mp);
            mp <= r < 12 && MarchOffset(r) <= doy && (r < 11 ==> doy < MarchOffset(r + 1))
    decreases 12 - mp
  {
    if mp < 11 && doy >= MarchOffset(mp + 1) {
      MarchMonthFound(doy, mp + 1);
    }
  }

  /** Days from the start of an era (March 1 of its year 0) to March 1 of its year yoe,
      for yoe < 400. */
  function EraYearStart(yoe: int): int
  {
    365 * yoe + yoe / 4 - yoe / 100
  }

  /** Length of the March-based year that starts on March 1 of `yoe`: 366 when the
      February that ends it has 29 days. */
  function MarchYearDays(yoe: int): int
  {
    if IsLeapYear(yoe + 1) then 366 else 365
  }

  /** Inside an era, consecutive March-based years follow each other without gaps. */
  lemma EraYearStep(yoe: int)
    requires 0 <= yoe < 399
    ensures EraYearStart(yoe + 1) == EraYearStart(yoe) + MarchYearDays(yoe)
  {
    var y := yoe + 1;
    if y % 4 == 0 { Split4(yoe, y / 4 - 1, 3); } else { Split4(yoe, y / 4, y % 4 - 1); }
    if y % 100 == 0 { Split100(yoe, y / 100 - 1, 99); } else { Split100(yoe, y / 100, y % 100 - 1); }
  }

  /** The year of an era holding day `rem` of the era counted from March 1 of year yoe,
      and the day within that year: as in ECMA-262's YearFromTime, the last year whose
      start is not after the day, found by walking forward one year at a time. */
  function EraYear(rem: int, yoe: int): (int, int)
    requires 0 <= yoe < 400
    decreases 400 - yoe
  {
    if yoe == 399 || rem < MarchYearDays(yoe) then (yoe, rem)
    else EraYear(rem - MarchYearDays(yoe), yoe + 1)
  }

  /** EraYear finds a year of the era and a day inside that year that together name
      the same day of the era. */
  lemma {:induction false} EraYearFound(rem: int, yoe: int)
    requires 0 <= yoe < 400 && 0 <= rem && EraYearStart(yoe) + rem < 146097
    ensures var r := EraYear(rem, yoe);
            yoe <= r.0 < 400 && 0 <= r.1 < MarchYearDays(r.0)
            && EraYearStart(yoe) + rem == EraYearStart(r.0) + r.1
    decreases 400 - yoe
  {
    if rem >= MarchYearDays(yoe) {
      assert yoe < 399;
      EraYearStep(yoe);
      EraYearFound(rem - MarchYearDays(yoe), yoe + 1);
    }
  }

  /** The calendar date of day `doy` of the March-based year that starts on March 1 of
      `year`: January and February belong to the following calendar year. */
  function CivilFromMarch(year: int, doy: int): Civil
  {
    var mp := MarchMonth(doy, 0);
    if mp < 10 then Civil(year, mp + 2, doy - MarchOffset(mp) + 1)
    else Civil(year + 1, mp - 10, doy - MarchOffset(mp) + 1)
  }

  /** The calendar date of day number z: the 400-year era, the March-based year
      within it, then the month. */
  function CivilFromDays(z: int): Civil
  {
    var era, doe := (z + 719468) / 146097, (z + 719468) % 146097;
    var r := EraYear(doe, 0);
    CivilFromMarch(400 * era + r.0, r.1)
  }

  /** The calendar date of day number z, specified rather than computed: the valid
      date whose MakeDay is z. Calendar.DaysRoundTrip shows there is one and
      Calendar.MakeDayInjective that there is only one. */
  ghost function CalendarDate(z: int): (c: Civil)
    ensures ValidCivil(c) && MakeDay(c.year, c.month, c.date) == z
  {
    DaysRoundTrip(z);
    var c :| ValidCivil(c) && MakeDay(c.year, c.month, c.date) == z; c
  }

  /** The calendar date of a time value. */
  ghost function DateOf(t: Time): Civil { CalendarDate(DayFromTime(t)) }

  /** `d.getFullYear()`: the year of the calendar date of d. */
  function YearFromTime(t: Time): (year: int)
    ensures year == DateOf(t).year
  {
    GetterDate(t);
    CivilFromDays(DayFromTime(t)).year
  }

  /** `d.getMonth()`: the 0-based month of the calendar date of d. */
  function MonthFromTime(t: Time): (month: int)
    ensures month == DateOf(t).month
  {
    GetterDate(t);
    CivilFromDays(DayFromTime(t)).month
  }

  /** `d.getDate()`: the day of the month of the calendar date of d. */
  function DateFromTime(t: Time): (date: int)
    ensures date == DateOf(t).date
  {
    GetterDate(t);
    CivilFromDays(DayFromTime(t)).date
  }

  /** The date the getters compute is the calendar date of the time value. */
  lemma GetterDate(t: Time)
    ensures CivilFromDays(DayFromTime(t)) == DateOf(t)
  {
    DaysRoundTrip(DayFromTime(t));
    MakeDayInjective(DateOf(t), CivilFromDays(DayFromTime(t)));
  }

  // ---------------------------------------------------------------------------
  // The Date operations the membership code uses, as functions of the time value.

  /** `new Date(year, month, date)`: local (here UTC) midnight. As ECMA-262 requires of
      the Date constructor, a year from 0 to 99 is read as 1900 + year. */
  function DateFromComponents(year: int, month: int, date: int): (r: Time)
    ensures TimeWithinDay(r) == 0
    ensures 0 <= month < 12 && 1 <= date <= 31 ==>
              DateOf(r) == LandsOn(if 0 <= year <= 99 then 1900 + year else year, month, date)
  {
    var fullYear := if 0 <= year <= 99 then 1900 + year else year;
    if 0 <= month < 12 && 1 <= date <= 31 then
      MakeDayDate(fullYear, month, date);
      MakeDate(MakeDay(fullYear, month, date), 0)
    else
      MakeDate(MakeDay(fullYear, month, date), 0)
  }

  /** `d.setDate(date)`: keep year, month and time of day, replace the date. The time
      value moves by whole days, as many as the new date differs from the old. */
  function SetDate(t: Time, date: int): (r: Time)
    ensures r == t + (date - DateFromTime(t)) * MsPerDay
  {
    TimeFieldsRoundTrip(t);
    MakeDate(MakeDay(YearFromTime(t), MonthFromTime(t), date), TimeWithinDay(t))
  }

  /** `d.setMonth(month)`: keep year, date and time of day, replace the month. A month
      outside 0 to 11 moves into a neighbouring year; a date the target month lacks
      rolls over into the month after. */
  function SetMonth(t: Time, month: int): (r: Time)
    ensures TimeWithinDay(r) == TimeWithinDay(t)
    ensures DateOf(r) == LandsOn((12 * YearFromTime(t) + month) / 12, (12 * YearFromTime(t) + month) % 12,
                                 DateFromTime(t))
  {
    MovedMonthDate(t, month);
    MakeDate(MakeDay(YearFromTime(t), month, DateFromTime(t)), TimeWithinDay(t))
  }

  /** The day SetMonth lands on has the rolled-over date of the normalised month. */
  lemma MovedMonthDate(t: Time, month: int)
    ensures CalendarDate(MakeDay(YearFromTime(t), month, DateFromTime(t)))
            == LandsOn((12 * YearFromTime(t) + month) / 12, (12 * YearFromTime(t) + month) % 12, DateFromTime(t))
  {
    TimeFieldsRoundTrip(t);
    MovedMonthDay(YearFromTime(t), month, DateFromTime(t));
  }

  /** Date `date` of month `month` of `year` is the rolled-over date of the month with
      the same index, normalised into 0 to 11. */
  lemma MovedMonthDay(year: int, month: int, date: int)
    requires 1 <= date <= 31
    ensures CalendarDate(MakeDay(year, month, date))
            == LandsOn((12 * year + month) / 12, (12 * year + month) % 12, date)
  {
    MonthIndexSplit(year, month, date);
    MakeDayDate((12 * year + month) / 12, (12 * year + month) % 12, date);
  }

  /** MakeDay depends on year and month only through the month index. */
  lemma MonthIndexSplit(year: int, month: int, date: int)
    ensures MakeDay(year, month, date) == MakeDay((12 * year + month) / 12, (12 * year + month) % 12, date)
  {
    assert 12 * ((12 * year + month) / 12) + (12 * year + month) % 12 == 12 * year + month;
  }

  /** `d.setFullYear(year)`: keep month, date and time of day, replace the year;
      February 29 rolls over to March 1 when the new year is not a leap year. */
  function SetFullYear(t: Time, year: int): (r: Time)
    ensures TimeWithinDay(r) == TimeWithinDay(t)
    ensures DateOf(r) == LandsOn(year, MonthFromTime(t), DateFromTime(t))
  {
    TimeFieldsRoundTrip(t);
    MakeDayDate(year, MonthFromTime(t), DateFromTime(t));
    MakeDate(MakeDay(year, MonthFromTime(t), DateFromTime(t)), TimeWithinDay(t))
  }

  /** `d.setHours(h, m, s, ms)`, and `d.setUTCHours(h, m, s, ms)`, which is the same
      operation when the local zone is UTC: keep the day, replace the time of day. */
  function SetHours(t: Time, hour: int, min: int, sec: int, ms: int): (r: Time)
    ensures 0 <= MakeTime(hour, min, sec, ms) < MsPerDay ==>
              DayFromTime(r) == DayFromTime(t) && TimeWithinDay(r) == MakeTime(hour, min, sec, ms)
  {
    MakeDate(DayFromTime(t), MakeTime(hour, min, sec, ms))
  }

  // ---------------------------------------------------------------------------
  // Lemmas

  lemma Split4(a: int, q: int, r: int)
    requires a == 4 * q + r && 0 <= r < 4
    ensures a / 4 == q && a % 4 == r
  {
  }

  lemma Split12(a: int, q: int, r: int)
    requires a == 12 * q + r && 0 <= r < 12
    ensures a / 12 == q && a % 12 == r
  {
  }

  lemma Split100(a: int, q: int, r: int)
    requires a == 100 * q + r && 0 <= r < 100
    ensures a / 100 == q && a % 100 == r
  {
  }

  lemma Split400(a: int, q: int, r: int)
    requires a == 400 * q + r && 0 <= r < 400
    ensures a / 400 == q && a % 400 == r
  {
  }

  /** The leap-year rule repeats every 400 years. */
  lemma LeapShift(x: int, k: int)
    ensures IsLeapYear(400 * k + x) == IsLeapYear(x)
  {
    Split4(400 * k + x, 100 * k + x / 4, x % 4);
    Split100(400 * k + x, 4 * k + x / 100, x % 100);
    Split400(400 * k + x, k + x / 400, x % 400);
  }

  /** A March-based year lasts 366 days exactly when the February it ends with has a
      29th day. */
  lemma MarchYearLength(year: int)
    ensures MarchFirst(year + 1) - MarchFirst(year) == if IsLeapYear(year + 1) then 366 else 365
  {
    Step4(year);
    Step100(year);
    Step400(year);
  }

  lemma Step4(year: int)
    ensures (year + 1) / 4 - year / 4 == if (year + 1) % 4 == 0 then 1 else 0
  {
    var y := year + 1;
    if y % 4 == 0 { Split4(year, y / 4 - 1, 3); } else { Split4(year, y / 4, y % 4 - 1); }
  }

  lemma Step100(year: int)
    ensures (year + 1) / 100 - year / 100 == if (year + 1) % 100 == 0 then 1 else 0
  {
    var y := year + 1;
    if y % 100 == 0 { Split100(year, y / 100 - 1, 99); } else { Split100(year, y / 100, y % 100 - 1); }
  }

  lemma Step400(year: int)
    ensures (year + 1) / 400 - year / 400 == if (year + 1) % 400 == 0 then 1 else 0
  {
    var y := year + 1;
    if y % 400 == 0 { Split400(year, y / 400 - 1, 399); } else { Split400(year, y / 400, y % 400 - 1); }
  }

  /** Month `month` of `year` lasts DaysInMonth days: the next month index starts that
      much later. */
  lemma MonthLength(year: int, month: int)
    requires 0 <= month < 12
    ensures MonthStart(12 * year + month + 1) == MonthStart(12 * year + month) + DaysInMonth(year, month)
  {
    if month == 0 {
      JanuaryLength(year, month);
    } else if month == 1 {
      FebruaryLength(year, month);
    } else {
      MarchToDecemberLength(year, month);
    }
  }

  /** January is month 10 of the March-based year before. */
  lemma JanuaryLength(year: int, month: int)
    requires month == 0
    ensures MonthStart(12 * year + month + 1) == MonthStart(12 * year + month) + DaysInMonth(year, month)
  {
    Split12(12 * year - 2, year - 1, 10);
    Split12(12 * year - 1, year - 1, 11);
    MarchMonthLength(10, year);
  }

  /** February ends the March-based year before, so its length is what is left of that
      year after March to January. */
  lemma FebruaryLength(year: int, month: int)
    requires month == 1
    ensures MonthStart(12 * year + month + 1) == MonthStart(12 * year + month) + DaysInMonth(year, month)
  {
    Split12(12 * year - 1, year - 1, 11);
    Split12(12 * year, year, 0);
    MarchYearLength(year - 1);
  }

  lemma MarchToDecemberLength(year: int, month: int)
    requires 2 <= month < 12
    ensures MonthStart(12 * year + month + 1) == MonthStart(12 * year + month) + DaysInMonth(year, month)
  {
    Split12(12 * year + month - 2, year, month - 2);
    Split12(12 * year + month - 1, year, month - 1);
    MarchMonthLength(month - 2, year);
  }

  /** Each month starts at least 28 days after the one before it. */
  lemma {:induction false} MonthsGrow(k: int, k2: int)
    requires k <= k2
    ensures MonthStart(k) + 28 * (k2 - k) <= MonthStart(k2)
    decreases k2 - k
  {
    if k < k2 {
      MonthsGrow(k, k2 - 1);
      MonthLength((k2 - 1) / 12, (k2 - 1) % 12);
    }
  }

  /** MakeDay is one-to-one on valid dates. */
  lemma MakeDayInjective(c: Civil, d: Civil)
    requires ValidCivil(c) && ValidCivil(d)
    requires MakeDay(c.year, c.month, c.date) == MakeDay(d.year, d.month, d.date)
    ensures c == d
  {
    SameMonthIndex(c, d);
    Split12(12 * c.year + c.month, d.year, d.month);
    Split12(12 * c.year + c.month, c.year, c.month);
  }

  /** A valid date in an earlier month has an earlier MakeDay. */
  lemma MakeDayBefore(c: Civil, d: Civil)
    requires ValidCivil(c) && ValidCivil(d)
    requires 12 * c.year + c.month < 12 * d.year + d.month
    ensures MakeDay(c.year, c.month, c.date) < MakeDay(d.year, d.month, d.date)
  {
    MonthEndsBefore(c.year, c.month, 12 * d.year + d.month);
  }

  /** A month ends no later than the start of any later month. */
  lemma MonthEndsBefore(year: int, month: int, k: int)
    requires 0 <= month < 12 && 12 * year + month < k
    ensures MonthStart(12 * year + month) + DaysInMonth(year, month) <= MonthStart(k)
  {
    MonthLength(year, month);
    MonthsGrow(12 * year + month + 1, k);
  }

  /** Two valid dates with the same MakeDay have the same month index. */
  lemma SameMonthIndex(c: Civil, d: Civil)
    requires ValidCivil(c) && ValidCivil(d)
    requires MakeDay(c.year, c.month, c.date) == MakeDay(d.year, d.month, d.date)
    ensures 12 * c.year + c.month == 12 * d.year + d.month
  {
    if 12 * c.year + c.month < 12 * d.year + d.month {
      MakeDayBefore(c, d);
    } else if 12 * d.year + d.month < 12 * c.year + c.month {
      MakeDayBefore(d, c);
    }
  }

  /** March 1 of year 400 * era + yoe. */
  lemma MarchFirstOfEra(era: int, yoe: int)
    requires 0 <= yoe < 400
    ensures MarchFirst(400 * era + yoe) == era * 146097 + EraYearStart(yoe) - 719468
  {
    Split4(400 * era + yoe, 100 * era + yoe / 4, yoe % 4);
    Split100(400 * era + yoe, 4 * era + yoe / 100, yoe % 100);
    Split400(400 * era + yoe, era, yoe);
  }

  /** The lengths of the March-based months are the civil month lengths. */
  lemma MarchMonthLength(mp: int, year: int)
    requires 0 <= mp < 11
    ensures MarchOffset(mp + 1) - MarchOffset(mp) == DaysInMonth(year, if mp < 10 then mp + 2 else mp - 10)
  {
  }

  /** A day of a March-based year gives a valid calendar date. */
  lemma CivilFromMarchValid(year: int, doy: int)
    requires 0 <= doy < MarchYearDays(year)
    ensures ValidCivil(CivilFromMarch(year, doy))
  {
    MarchMonthFound(doy, 0);
    var mp := MarchMonth(doy, 0);
    if mp < 11 {
      MarchMonthLength(mp, year);
    }
  }

  /** ... and that date is `doy` days after March 1 of `year`. */
  lemma CivilFromMarchDay(year: int, doy: int)
    requires 0 <= doy < 366
    ensures var c := CivilFromMarch(year, doy); MakeDay(c.year, c.month, c.date) == MarchFirst(year) + doy
  {
    MarchMonthFound(doy, 0);
    Split12(12 * year + MarchMonth(doy, 0), year, MarchMonth(doy, 0));
  }

  /** Day `doe` of an era falls inside the March-based year EraYear finds for it ... */
  lemma EraDayInYear(era: int, doe: int)
    requires 0 <= doe < 146097
    ensures var r := EraYear(doe, 0);
            0 <= r.1 < MarchYearDays(400 * era + r.0)
  {
    EraDayInEraYear(doe);
    EraLeap(era, EraYear(doe, 0).0);
  }

  /** Day doe of an era lies inside the era year EraYear finds for it. */
  lemma EraDayInEraYear(doe: int)
    requires 0 <= doe < 146097
    ensures var r := EraYear(doe, 0); 0 <= r.1 < MarchYearDays(r.0)
  {
    EraYearFound(doe, 0);
  }

  /** ... and is day EraYear(doe, 0).1 of that year, counted from its March 1. */
  lemma EraDayCount(era: int, doe: int)
    requires 0 <= doe < 146097
    ensures var r := EraYear(doe, 0);
            era * 146097 + doe - 719468 == MarchFirst(400 * era + r.0) + r.1
  {
    EraYearFound(doe, 0);
    MarchFirstOfEra(era, EraYear(doe, 0).0);
  }

  /** A year of an era is a leap year exactly when its counterpart in era 0 is. */
  lemma EraLeap(era: int, yoe: int)
    ensures MarchYearDays(400 * era + yoe) == MarchYearDays(yoe)
  {
    LeapShift(yoe + 1, era);
  }

  /** Every day number is the MakeDay of a valid calendar date: CivilFromDays is a right
      inverse of MakeDay. */
  lemma DaysRoundTrip(z: int)
    ensures ValidCivil(CivilFromDays(z))
    ensures var c := CivilFromDays(z); MakeDay(c.year, c.month, c.date) == z
  {
    CivilFromDaysValid(z);
    CivilFromDaysDay(z);
  }

  lemma CivilFromDaysValid(z: int)
    ensures ValidCivil(CivilFromDays(z))
  {
    var era, doe := (z + 719468) / 146097, (z + 719468) % 146097;
    EraDayInYear(era, doe);
    CivilFromMarchValid(400 * era + EraYear(doe, 0).0, EraYear(doe, 0).1);
  }

  lemma CivilFromDaysDay(z: int)
    ensures var c := CivilFromDays(z); MakeDay(c.year, c.month, c.date) == z
  {
    var era, doe := (z + 719468) / 146097, (z + 719468) % 146097;
    EraDayCount(era, doe);
    EraYearFound(doe, 0);
    CivilFromMarchDay(400 * era + EraYear(doe, 0).0, EraYear(doe, 0).1);
  }

  /** CivilFromDays is also a left inverse: a valid date survives MakeDay. */
  lemma DayOfCivil(z: int, c: Civil)
    requires ValidCivil(c) && z == MakeDay(c.year, c.month, c.date)
    ensures CivilFromDays(z) == c
  {
    DaysRoundTrip(z);
    MakeDayInjective(c, CivilFromDays(z));
  }

  lemma CivilRoundTrip(c: Civil)
    requires ValidCivil(c)
    ensures CivilFromDays(MakeDay(c.year, c.month, c.date)) == c
  {
    DayOfCivil(MakeDay(c.year, c.month, c.date), c);
  }

  /** The calendar date that date `date` (up to 31) of month `month` of `year` names
      under ECMA-262's rules: the date itself when the month has it, otherwise the
      matching date of the next month; there is no clamping to the month's end. */
  function LandsOn(year: int, month: int, date: int): Civil
    requires 0 <= month < 12
  {
    var n := NextMonth(year, month);
    if date <= DaysInMonth(year, month) then Civil(year, month, date)
    else Civil(n.year, n.month, date - DaysInMonth(year, month))
  }

  /** LandsOn gives a valid date with the same MakeDay. */
  lemma LandsOnValid(year: int, month: int, date: int)
    requires 0 <= month < 12 && 1 <= date <= 31
    ensures ValidCivil(LandsOn(year, month, date))
    ensures var c := LandsOn(year, month, date); MakeDay(c.year, c.month, c.date) == MakeDay(year, month, date)
  {
    MonthLength(year, month);
  }

  /** So LandsOn is the calendar date of that MakeDay. */
  lemma MakeDayDate(year: int, month: int, date: int)
    requires 0 <= month < 12 && 1 <= date <= 31
    ensures CalendarDate(MakeDay(year, month, date)) == LandsOn(year, month, date)
  {
    LandsOnValid(year, month, date);
    MakeDayInjective(CalendarDate(MakeDay(year, month, date)), LandsOn(year, month, date));
  }

  /** A date moved forward by n >= 0 months is not earlier. */
  lemma AddMonthsNotEarlier(year: int, month: int, date: int, n: int)
    requires n >= 0
    ensures MakeDay(year, month, date) <= MakeDay(year, month + n, date)
  {
    MonthsGrow(12 * year + month, 12 * year + month + n);
  }

  /** A date moved forward by n >= 0 years is not earlier. */
  lemma AddYearsNotEarlier(year: int, month: int, date: int, n: int)
    requires n >= 0
    ensures MakeDay(year, month, date) <= MakeDay(year + n, month, date)
  {
    MonthsGrow(12 * year + month, 12 * (year + n) + month);
  }

  /** Adding whole days to a time value moves its day number by as many and keeps its
      time of day. */
  lemma DayShift(t: Time, n: int)
    ensures DayFromTime(t + n * MsPerDay) == DayFromTime(t) + n
    ensures TimeWithinDay(t + n * MsPerDay) == TimeWithinDay(t)
  {
    assert t + n * MsPerDay == MakeDate(DayFromTime(t) + n, TimeWithinDay(t));
  }

  /** The date fields ECMA-262's algorithms read off a time value are its calendar date. */
  lemma FieldsOfTime(t: Time)
    ensures DateOf(t) == Civil(YearFromTime(t), MonthFromTime(t), DateFromTime(t))
  {
    DaysRoundTrip(DayFromTime(t));
    MakeDayInjective(DateOf(t), CivilFromDays(DayFromTime(t)));
  }

  /** The date fields of a time value name its day. */
  lemma TimeFieldsRoundTrip(t: Time)
    ensures MakeDay(YearFromTime(t), MonthFromTime(t), DateFromTime(t)) == DayFromTime(t)
    ensures ValidCivil(Civil(YearFromTime(t), MonthFromTime(t), DateFromTime(t)))
  {
    DaysRoundTrip(DayFromTime(t));
  }

  /** A time value whose day is MakeDay(year, month, date) falls on LandsOn of them. */
  lemma DateOfMakeDay(t: Time, year: int, month: int, date: int)
    requires DayFromTime(t) == MakeDay(year, month, date)
    requires 0 <= month < 12 && 1 <= date <= 31
    ensures DateOf(t) == LandsOn(year, month, date)
  {
    LandsOnValid(year, month, date);
    MakeDayInjective(DateOf(t), LandsOn(year, month, date));
  }

  /** `d.setDate(d.getDate() + n)` moves d by exactly n days, keeping the time of day. */
  lemma SetDateShifts(t: Time, n: int)
    ensures SetDate(t, DateFromTime(t) + n) == t + n * MsPerDay
  {
    TimeFieldsRoundTrip(t);
  }
}
