/** What `to_utc_time` and `from_utc_time` are for: they are inverse to each other, agree with the
    POSIX "Seconds Since the Epoch" formula, and one second later is one tick of the clock. */
module UtcTimeProofs {
  import opened CxxInt
  import opened Gregorian
  import opened Date
  import opened DateProofs
  import opened UtcTime

  /** A date and time of day, as `from_utc_time` takes them. */
  datatype DateTime = DateTime(date: YearMonthDay, hour: int, minute: int, second: int)

  function DateTimeOf(f: Tm): DateTime {
    DateTime(YearMonthDay(f.year + 1900, f.mon + 1, f.mday), f.hour, f.min, f.sec)
  }

  function Seconds(f: DateTime): int {
    FromUtcTime(f.date.year, f.date.month, f.date.day, f.hour, f.minute, f.second)
  }

  predicate Normalised(f: DateTime) {
    InCalendar(f.date) && 0 <= f.hour < 24 && 0 <= f.minute < 60 && 0 <= f.second < 60
  }

  lemma EpochDay()
    ensures JULIAN_DAY_OF_1970_01_01 == 2440588
  {
  }

  // ---- Round trips ----

  lemma ClockRoundTrip(s: int)
    requires 0 <= s < SECONDS_PER_DAY
    ensures 0 <= s / 3600 < 24 && 0 <= s % 3600 / 60 < 60 && 0 <= s % 60 < 60
    ensures s / 3600 * 3600 + s % 3600 / 60 * 60 + s % 60 == s
  {
    var r := s % 3600;
    assert s == 60 * (60 * (s / 3600) + r / 60) + r % 60;
    Sixtieths(60 * (s / 3600) + r / 60, r % 60);
  }

  /** Every second whose day is in the calendar comes back, negative seconds included, and its
      broken-down form is normalised. */
  lemma UtcRoundTrip(t: int, yday: bool)
    requires JulianDayOf(t) >= -32044
    ensures Normalised(DateTimeOf(BrokenDown(t, yday)))
    ensures FromUtcTm(BrokenDown(t, yday)) == t
  {
    hide GetYearMonthDay, GetJulianDayNumber, InCalendar, TruncMod;
    JulianDayRoundTrip(JulianDayOf(t));
    ClockRoundTrip(t % SECONDS_PER_DAY);
  }

  lemma SecondsSplit(f: DateTime)
    requires 0 <= f.hour < 24 && 0 <= f.minute < 60 && 0 <= f.second < 60
    ensures JulianDayOf(Seconds(f)) == JulianDay(f.date)
    ensures Seconds(f) % SECONDS_PER_DAY == f.hour * 3600 + f.minute * 60 + f.second
  {
    hide GetJulianDayNumber;
    var s := f.hour * 3600 + f.minute * 60 + f.second;
    assert 0 <= s < SECONDS_PER_DAY;
    assert Seconds(f) == (JulianDay(f.date) - JULIAN_DAY_OF_1970_01_01) * 86400 + s;
  }

  lemma NormalisedSurvives(f: DateTime, yday: bool)
    requires Normalised(f)
    ensures DateTimeOf(BrokenDown(Seconds(f), yday)) == f
  {
    hide GetYearMonthDay, GetJulianDayNumber, InCalendar, TruncMod, Seconds;
    SecondsSplit(f);
    DateInCalendarRoundTrip(f.date);
    ClockDigits(Seconds(f) % SECONDS_PER_DAY, f.hour, f.minute, f.second);
  }

  /** A date-time whose second falls in the calendar survives exactly when it is normalised. */
  lemma DateTimeRoundTrip(f: DateTime, yday: bool)
    requires JulianDayOf(Seconds(f)) >= -32044
    ensures DateTimeOf(BrokenDown(Seconds(f), yday)) == f <==> Normalised(f)
  {
    hide *;
    UtcRoundTrip(Seconds(f), yday);
    if Normalised(f) {
      NormalisedSurvives(f, yday);
    }
  }

  /** No two normalised date-times name the same second. */
  lemma NormalisedIsUnique(f: DateTime, g: DateTime)
    requires Normalised(f) && Normalised(g) && Seconds(f) == Seconds(g)
    ensures f == g
  {
    hide *;
    NormalisedSurvives(f, false);
    NormalisedSurvives(g, false);
  }

  // ---- One second later ----

  function NextSecond(f: DateTime): DateTime
    requires ValidDate(f.date)
  {
    if f.second < 59 then f.(second := f.second + 1)
    else if f.minute < 59 then f.(minute := f.minute + 1, second := 0)
    else if f.hour < 23 then f.(hour := f.hour + 1, minute := 0, second := 0)
    else DateTime(NextDay(f.date), 0, 0, 0)
  }

  lemma NextSecondAddsOne(f: DateTime)
    requires Normalised(f)
    ensures Normalised(NextSecond(f)) && Seconds(NextSecond(f)) == Seconds(f) + 1
  {
    hide GetJulianDayNumber, InCalendar, ValidDate, NextDay;
    NextDayAddsOne(f.date);
  }

  lemma InCalendarIsValid(d: YearMonthDay)
    requires InCalendar(d)
    ensures ValidDate(d)
  {
  }

  /** `to_utc_time` commutes with the ticking of a calendar clock, carries and leap days
      included. With its value at the epoch this determines it from 1 March -4800 on. */
  lemma UtcTicks(t: int, yday: bool)
    requires JulianDayOf(t) >= -32044
    ensures Normalised(DateTimeOf(BrokenDown(t, yday))) && ValidDate(DateTimeOf(BrokenDown(t, yday)).date)
    ensures DateTimeOf(BrokenDown(t + 1, yday)) == NextSecond(DateTimeOf(BrokenDown(t, yday)))
  {
    hide BrokenDown, NextSecond, Seconds, InCalendar, ValidDate;
    var f := DateTimeOf(BrokenDown(t, yday));
    UtcRoundTrip(t, yday);
    SecondsOfTm(BrokenDown(t, yday));
    InCalendarIsValid(f.date);
    NextSecondAddsOne(f);
    NormalisedSurvives(NextSecond(f), yday);
  }

  lemma SecondsOfTm(f: Tm)
    ensures Seconds(DateTimeOf(f)) == FromUtcTm(f)
  {
    hide FromUtcTime;
  }

  lemma UtcEpoch(yday: bool)
    ensures BrokenDown(0, yday) == Tm(0, 0, 0, 1, 0, 70, 4, 0, 0, 0, GMT)
  {
    hide GetYearMonthDay, GetJulianDayNumber;
    EpochDay();
    DateInCalendarRoundTrip(YearMonthDay(1970, 1, 1));
  }

  // ---- Normalisation ----

  /** Any day, hour, minute and second counted from the first of a month, 31 February among
      them: `from_utc_time` then `to_utc_time` is the one normalised date-time exactly that many
      days and seconds after midnight on that first. */
  lemma Normalisation(f: DateTime, yday: bool)
    requires 1 <= f.date.month <= 12
    requires JulianDayOf(Seconds(f)) >= -32044
    ensures var first := DateTime(f.date.(day := 1), 0, 0, 0);
            var g := DateTimeOf(BrokenDown(Seconds(f), yday));
            && Normalised(g)
            && Seconds(g) == Seconds(first)
                 + (f.date.day - 1) * SECONDS_PER_DAY + f.hour * 3600 + f.minute * 60 + f.second
            && forall h :: Normalised(h) && Seconds(h) == Seconds(g) ==> h == g
  {
    hide BrokenDown, Normalised, Seconds;
    var g := DateTimeOf(BrokenDown(Seconds(f), yday));
    UtcRoundTrip(Seconds(f), yday);
    SecondsOfTm(BrokenDown(Seconds(f), yday));
    SecondsFromFirst(f);
    forall h | Normalised(h) && Seconds(h) == Seconds(g) ensures h == g {
      NormalisedIsUnique(h, g);
    }
  }

  lemma SecondsFromFirst(f: DateTime)
    ensures Seconds(f) == Seconds(DateTime(f.date.(day := 1), 0, 0, 0))
               + (f.date.day - 1) * SECONDS_PER_DAY + f.hour * 3600 + f.minute * 60 + f.second
  {
    hide GetJulianDayNumber;
    DayOffset(f.date.year, f.date.month, f.date.day);
  }

  // ---- Day of the year and of the week ----

  lemma FirstYearStart()
    ensures GetJulianDayNumber(-4800, 1, 1) == -32103
    ensures GetJulianDayNumber(-4799, 1, 1) == -31738
  {
  }

  lemma {:induction false} MonthsOfFirstYear(month: int, day: int)
    requires 3 <= month <= 12
    ensures GetJulianDayNumber(-4800, month, day) == -32104 + DaysBeforeMonth(-4800, month) + day - 1
    decreases month
  {
    hide GetJulianDayNumber;
    DayOffset(-4800, month, day);
    if month == 3 {
      FirstMarch();
    } else {
      var last := YearMonthDay(-4800, month - 1, DaysInMonth(-4800, month - 1));
      MonthsOfFirstYear(month - 1, last.day);
      NextDayAddsOne(last);
    }
  }

  lemma FirstMarch()
    ensures GetJulianDayNumber(-4800, 3, 1) == -32044 && DaysBeforeMonth(-4800, 3) == 60
  {
    assert DaysBeforeMonth(-4800, 2) == 31;
  }

  /** `tm_yday` counts the days of the preceding months of its year, in every year but the
      first of the calendar, whose 1 January is not in it and is taken one day late. */
  lemma DayOfYear(t: int)
    requires JulianDayOf(t) >= -32044
    ensures var f := BrokenDown(t, true);
            var d := DateTimeOf(f).date;
            && 1 <= d.month <= 12
            && f.yday == DaysBeforeMonth(d.year, d.month) + d.day - 1 - (if d.year == -4800 then 1 else 0)
            && 0 <= f.yday < DaysInYear(d.year)
  {
    hide GetYearMonthDay, GetJulianDayNumber;
    JulianDayRoundTrip(JulianDayOf(t));
    var d := GetYearMonthDay(JulianDayOf(t));
    DaysBeforeNextMonth(d.year, d.month);
    if d.year == -4800 {
      FirstYearStart();
      MonthsOfFirstYear(d.month, d.day);
    } else {
      MonthStart(d.year, d.month, d.day);
    }
  }

  /** `tm_wday` is the day of the week, Sunday being 0, exactly when the Julian day number is
      not below -1 or the day is a Sunday: before that it comes out seven too small. */
  lemma DayOfWeek(t: int, yday: bool)
    ensures var weekday := (t / SECONDS_PER_DAY + 4) % 7;
            BrokenDown(t, yday).wday == weekday - if JulianDayOf(t) < -1 && weekday != 0 then 7 else 0
  {
    hide GetYearMonthDay, GetJulianDayNumber;
    EpochDay();
    assert 2440589 % 7 == 4;
  }

  /** The fields that do not depend on the date, for every second: the day of the year only on
      request, no daylight saving, no offset, and the name of the zone. */
  lemma UtcFields(t: int)
    ensures BrokenDown(t, false) == BrokenDown(t, true).(yday := 0)
    ensures forall yday :: var f := BrokenDown(t, yday);
                           f.isdst == 0 && f.gmtoff == 0 && f.zone == [0x47, 0x4D, 0x54]
  {
    hide GetYearMonthDay, GetJulianDayNumber;
  }

  // ---- Section 4.16 of POSIX.1-2017: "Seconds Since the Epoch" ----

  function PosixSeconds(f: Tm): int {
    f.sec + f.min * 60 + f.hour * 3600 + f.yday * 86400
    + (f.year - 70) * 31536000 + TruncDiv(f.year - 69, 4) * 86400
    - TruncDiv(f.year - 1, 100) * 86400 + TruncDiv(f.year + 299, 400) * 86400
  }

  lemma PosixYearStart(year: int)
    requires year >= 1970
    ensures GetJulianDayNumber(year, 1, 1) - 2440588
         == (year - 1970) * 365 + (year - 1969) / 4 - (year - 1901) / 100 + (year - 1601) / 400
  {
    var y := year + 4799;
    assert y / 4 == (year - 1969) / 4 + 1692;
    assert y / 100 == (year - 1901) / 100 + 67;
    assert y / 400 == (year - 1601) / 400 + 16;
  }

  lemma PosixFormula(t: int)
    requires t >= 0
    ensures PosixSeconds(BrokenDown(t, true)) == t
  {
    hide GetYearMonthDay, GetJulianDayNumber;
    EpochDay();
    JulianDayRoundTrip(JulianDayOf(t));
    ClockRoundTrip(t % SECONDS_PER_DAY);
    var d := GetYearMonthDay(JulianDayOf(t));
    JulianDayOrder(d, YearMonthDay(1970, 1, 1));
    PosixYearStart(d.year);
  }
}
