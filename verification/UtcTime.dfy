/** The static half of `base/time_zone.cpp`: seconds since the epoch to broken-down UTC and back. */
module UtcTime {
  import opened CxxInt
  import opened Gregorian
  import opened Date

  type Byte = x: int | 0 <= x < 256

  const SECONDS_PER_DAY: int := 24 * 60 * 60

  /** "GMT" */
  const GMT: seq<Byte> := [71, 77, 84]

  /** The value of a `struct tm`. `zone` is the C string that `tm_zone` points to. */
  datatype Tm = Tm(sec: int, min: int, hour: int, mday: int, mon: int, year: int,
                   wday: int, yday: int, isdst: int, gmtoff: int, zone: seq<Byte>)

  /** A `struct tm` in memory, zeroed as `mem_zero` leaves it and then filled in place. */
  class TmBuffer {
    var sec: int
    var min: int
    var hour: int
    var mday: int
    var mon: int
    var year: int
    var wday: int
    var yday: int
    var isdst: int
    var gmtoff: int
    var zone: seq<Byte>

    constructor ()
      ensures Value() == Tm(0, 0, 0, 0, 0, 0, 0, 0, 0, 0, [])
    {
      sec, min, hour, mday, mon, year, wday, yday, isdst, gmtoff := 0, 0, 0, 0, 0, 0, 0, 0, 0, 0;
      zone := [];
    }

    function Value(): Tm
      reads this
    {
      Tm(sec, min, hour, mday, mon, year, wday, yday, isdst, gmtoff, zone)
    }
  }

  /** Seconds of the day into hours, minutes and seconds; `seconds` is unsigned in the program. */
  method FillHMS(seconds: nat, utc: TmBuffer)
    modifies utc`sec, utc`min, utc`hour
    ensures 0 <= utc.sec < 60 && 0 <= utc.min < 60
    ensures utc.hour * 3600 + utc.min * 60 + utc.sec == seconds
  {
    utc.sec := seconds % 60;
    var minutes := seconds / 60;
    utc.min := minutes % 60;
    utc.hour := minutes / 60;
  }

  // ---- What to_utc_time computes ----

  /** The Julian day that holds second `t`: true floor division, for negative `t` too. */
  function JulianDayOf(t: int): int {
    t / SECONDS_PER_DAY + JULIAN_DAY_OF_1970_01_01
  }

  function BrokenDown(t: int, yday: bool): Tm {
    var date := Date(JulianDayOf(t));
    var s := t % SECONDS_PER_DAY;
    var ymd := date.YearMonthDay();
    Tm(s % 60, s % 3600 / 60, s / 3600, ymd.day, ymd.month - 1, ymd.year - 1900, date.WeekDay(),
       if yday then date.julianDayNumber - Date.FromYmd(ymd.year, 1, 1).julianDayNumber else 0,
       0, 0, GMT)
  }

  /** The seconds whose day `GetYearMonthDay` evaluates without 32-bit overflow. */
  predicate NoOverflow(t: int) {
    -536902956 <= JulianDayOf(t) <= 536838867
  }

  method ToUtcTime(secondsSinceEpoch: int, yday: bool := false) returns (r: Tm)
    requires NoOverflow(secondsSinceEpoch)
    ensures r == BrokenDown(secondsSinceEpoch, yday)
  {
    hide GetYearMonthDay, GetJulianDayNumber, TruncMod, TruncDiv, CastToInt;
    var utc := new TmBuffer();
    utc.zone := GMT;
    var seconds := CastToInt(TruncMod(secondsSinceEpoch, SECONDS_PER_DAY));
    var days := CastToInt(TruncDiv(secondsSinceEpoch, SECONDS_PER_DAY));
    if seconds < 0 {
      seconds := seconds + SECONDS_PER_DAY;
      days := days - 1;
    }
    FloorFixUp(secondsSinceEpoch, seconds, days);
    FillHMS(seconds, utc);
    ClockDigits(seconds, utc.hour, utc.min, utc.sec);
    var date := Date(days + JULIAN_DAY_OF_1970_01_01);
    var ymd := date.YearMonthDay();
    utc.year := ymd.year - 1900;
    utc.mon := ymd.month - 1;
    utc.mday := ymd.day;
    utc.wday := date.WeekDay();
    if yday {
      var startOfYear := Date.FromYmd(ymd.year, 1, 1);
      utc.yday := date.julianDayNumber - startOfYear.julianDayNumber;
    }
    r := utc.Value();
  }

  /** The correction for a negative remainder makes truncation a true floor division, and the
      casts to `int` lose nothing. */
  lemma FloorFixUp(t: int, seconds: int, days: int)
    requires NoOverflow(t)
    requires var s0, d0 := CastToInt(TruncMod(t, SECONDS_PER_DAY)), CastToInt(TruncDiv(t, SECONDS_PER_DAY));
             seconds == (if s0 < 0 then s0 + SECONDS_PER_DAY else s0) && days == if s0 < 0 then d0 - 1 else d0
    ensures seconds == t % SECONDS_PER_DAY && days == t / SECONDS_PER_DAY
  {
  }

  lemma Sixtieths(q: int, r: int)
    requires 0 <= r < 60
    ensures (60 * q + r) / 60 == q && (60 * q + r) % 60 == r
  {
  }

  lemma Hours(q: int, r: int)
    requires 0 <= r < 3600
    ensures (3600 * q + r) / 3600 == q && (3600 * q + r) % 3600 == r
  {
  }

  lemma ClockDigits(s: int, hour: int, min: int, sec: int)
    requires 0 <= sec < 60 && 0 <= min < 60 && hour * 3600 + min * 60 + sec == s
    ensures hour == s / 3600 && min == s % 3600 / 60 && sec == s % 60
  {
    Hours(hour, 60 * min + sec);
    Sixtieths(min, sec);
    Sixtieths(60 * hour + min, sec);
  }

  // ---- from_utc_time ----

  function FromUtcTime(year: int, month: int, day: int, hour: int, minute: int, seconds: int): int {
    var date := Date.FromYmd(year, month, day);
    var secondsInDay := hour * 3600 + minute * 60 + seconds;
    var days := date.julianDayNumber - JULIAN_DAY_OF_1970_01_01;
    days * SECONDS_PER_DAY + secondsInDay
  }

  function FromUtcTm(utc: Tm): int {
    FromUtcTime(utc.year + 1900, utc.mon + 1, utc.mday, utc.hour, utc.min, utc.sec)
  }
}
