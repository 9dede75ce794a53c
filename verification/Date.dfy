/** `base/date.cpp` and the inline members of `base/date.h`. */
module Date {
  import opened CxxInt
  import opened Gregorian

  function GetJulianDayNumber(year: int, month: int, day: int): int {
    var a := TruncDiv(14 - month, 12);
    var y := year + 4800 - a;
    var m := month + 12 * a - 3;
    day + TruncDiv(153 * m + 2, 5) + y * 365 + TruncDiv(y, 4) - TruncDiv(y, 100) + TruncDiv(y, 400) - 32045
  }

  function GetYearMonthDay(julianDayNumber: int): YearMonthDay {
    var a := julianDayNumber + 32044;
    var b := TruncDiv(4 * a + 3, 146097);
    var c := a - TruncDiv(b * 146097, 4);
    var d := TruncDiv(4 * c + 3, 1461);
    var e := c - TruncDiv(1461 * d, 4);
    var m := TruncDiv(5 * e + 2, 153);
    YearMonthDay(b * 100 + d - 4800 + TruncDiv(m, 10),
                 m + 3 - 12 * TruncDiv(m, 10),
                 e - TruncDiv(153 * m + 2, 5) + 1)
  }

  function JulianDay(d: YearMonthDay): int {
    GetJulianDayNumber(d.year, d.month, d.day)
  }

  const JULIAN_DAY_OF_1970_01_01: int := GetJulianDayNumber(1970, 1, 1)

  /** `GetYearMonthDay` as the machine evaluates it, one 32-bit operation at a time. */
  function CheckedYearMonthDay(julianDayNumber: int): Checked<YearMonthDay> {
    var a :- Fit(julianDayNumber + 32044);
    var a4 :- Fit(4 * a);
    var a43 :- Fit(a4 + 3);
    var b := TruncDiv(a43, 146097);
    var centuries :- Fit(b * 146097);
    var c :- Fit(a - TruncDiv(centuries, 4));
    var c4 :- Fit(4 * c);
    var c43 :- Fit(c4 + 3);
    var d := TruncDiv(c43, 1461);
    var years :- Fit(1461 * d);
    var e :- Fit(c - TruncDiv(years, 4));
    var e5 :- Fit(5 * e);
    var e52 :- Fit(e5 + 2);
    var m := TruncDiv(e52, 153);
    var m153 :- Fit(153 * m);
    var m1532 :- Fit(m153 + 2);
    var day0 :- Fit(e - TruncDiv(m1532, 5));
    var day :- Fit(day0 + 1);
    var m3 :- Fit(m + 3);
    var wrap :- Fit(12 * TruncDiv(m, 10));
    var month :- Fit(m3 - wrap);
    var b100 :- Fit(b * 100);
    var y0 :- Fit(b100 + d);
    var y1 :- Fit(y0 - 4800);
    var year :- Fit(y1 + TruncDiv(m, 10));
    Value(YearMonthDay(year, month, day))
  }

  /** `GetJulianDayNumber` as the machine evaluates it, left to right. */
  function CheckedJulianDayNumber(year: int, month: int, day: int): Checked<int> {
    var a0 :- Fit(14 - month);
    var a := TruncDiv(a0, 12);
    var y0 :- Fit(year + 4800);
    var y :- Fit(y0 - a);
    var a12 :- Fit(12 * a);
    var m0 :- Fit(month + a12);
    var m :- Fit(m0 - 3);
    var m153 :- Fit(153 * m);
    var m1532 :- Fit(m153 + 2);
    var s0 :- Fit(day + TruncDiv(m1532, 5));
    var y365 :- Fit(y * 365);
    var s1 :- Fit(s0 + y365);
    var s2 :- Fit(s1 + TruncDiv(y, 4));
    var s3 :- Fit(s2 - TruncDiv(y, 100));
    var s4 :- Fit(s3 + TruncDiv(y, 400));
    Fit(s4 - 32045)
  }

  /** The class of `base/date.h`: a day held as its Julian day number. */
  datatype Date = Date(julianDayNumber: int) {
    function YearMonthDay(): YearMonthDay {
      GetYearMonthDay(julianDayNumber)
    }

    /** 0 for Sunday; the remainder of a negative day number is negative. */
    function WeekDay(): int {
      TruncMod(julianDayNumber + 1, 7)
    }

    static function FromYmd(year: int, month: int, day: int): Date {
      Date(GetJulianDayNumber(year, month, day))
    }
  }
}
