/** What `base/date.cpp` is for: Julian day numbers count the days of the Gregorian calendar,
    one for one, from 1 March -4800 on, and nowhere before. */
module DateProofs {
  import opened CxxInt
  import opened Gregorian
  import opened Date

  // ---- March-based years: the digits both conversions work in ----

  /** A day counted from 1 March -4800 as century, year of the century, month from March and
      day from the first, the digits that the two conversions share. */
  datatype Digits = Digits(b: int, d: int, m: int, k: int)

  /** The number of the day after the first of its month, in a year counted from March. */
  function DayOfMarchYear(m: int, k: int): int {
    (153 * m + 2) / 5 + k
  }

  function MarchMonthLength(g: Digits): int {
    if g.m == 11 then (if LastFebruaryIsLong(g) then 29 else 28)
    else if g.m in {1, 3, 6, 8} then 30
    else 31
  }

  /** February closes a March-based year, in the following calendar year. */
  predicate LastFebruaryIsLong(g: Digits) {
    g.d % 4 == 3 && (g.d != 99 || g.b % 4 == 3)
  }

  predicate ValidDigits(g: Digits) {
    0 <= g.b && 0 <= g.d < 100 && 0 <= g.m < 12 && 0 <= g.k < MarchMonthLength(g)
  }

  /** Days since 1 March -4800. */
  function Ordinal(g: Digits): int {
    146097 * g.b / 4 + 1461 * g.d / 4 + DayOfMarchYear(g.m, g.k)
  }

  function ToDate(g: Digits): YearMonthDay {
    YearMonthDay(100 * g.b + g.d - 4800 + g.m / 10, g.m + 3 - 12 * (g.m / 10), g.k + 1)
  }

  function FromDate(d: YearMonthDay): Digits {
    var a := if d.month <= 2 then 1 else 0;
    var y := d.year + 4800 - a;
    Digits(y / 100, y % 100, d.month + 12 * a - 3, d.day - 1)
  }

  lemma DigitsOfDate(d: YearMonthDay)
    requires InCalendar(d)
    ensures ValidDigits(FromDate(d)) && ToDate(FromDate(d)) == d
  {
    var a := if d.month <= 2 then 1 else 0;
    var y := d.year + 4800 - a;
    var g := FromDate(d);
    if d.month == 2 {
      assert d.year == 100 * g.b + g.d - 4799;
      LeapDigits(g.b, g.d);
    }
  }

  lemma DateOfDigits(g: Digits)
    requires ValidDigits(g)
    ensures InCalendar(ToDate(g)) && FromDate(ToDate(g)) == g
  {
    var d := ToDate(g);
    if g.m == 11 {
      LeapDigits(g.b, g.d);
    }
  }

  lemma LeapDigits(b: int, d: int)
    requires 0 <= b && 0 <= d < 100
    ensures IsLeap(100 * b + d - 4799) <==> d % 4 == 3 && (d != 99 || b % 4 == 3)
  {
    var y := 100 * b + d - 4799;
    assert y % 4 == (d + 1) % 4;
    assert y % 100 == 0 <==> d == 99;
    if d == 99 {
      assert y == 100 * (b + 1 - 48);
    }
  }

  lemma YearsOfDigits(b: int, d: int)
    requires 0 <= b && 0 <= d < 100
    ensures var y := 100 * b + d;
            365 * y + y / 4 - y / 100 + y / 400 == 146097 * b / 4 + 1461 * d / 4
  {
    var y := 100 * b + d;
    assert y / 4 == 25 * b + d / 4;
    assert y / 100 == b;
    assert y / 400 == b / 4;
  }

  lemma JulianDayOfDigits(g: Digits)
    requires ValidDigits(g)
    ensures JulianDay(ToDate(g)) == Ordinal(g) - 32044
  {
    YearsOfDigits(g.b, g.d);
  }

  // ---- Splitting an ordinal into digits ----

  lemma SplitCentury(b: int, c: int)
    requires 0 <= b && 0 <= c <= 36524 && (c == 36524 ==> b % 4 == 3)
    ensures (4 * (146097 * b / 4 + c) + 3) / 146097 == b
  {
  }

  lemma SplitYear(d: int, e: int)
    requires 0 <= d < 100 && 0 <= e <= 365 && (e == 365 ==> d % 4 == 3)
    ensures (4 * (1461 * d / 4 + e) + 3) / 1461 == d
  {
  }

  lemma SplitMonth(m: int, k: int)
    requires 0 <= m < 12 && 0 <= k <= 30 && (m in {1, 3, 6, 8} ==> k <= 29) && (m == 11 ==> k <= 28)
    ensures (5 * DayOfMarchYear(m, k) + 2) / 153 == m
  {
  }

  lemma DayOfMarchYearRange(g: Digits)
    requires ValidDigits(g)
    ensures 0 <= DayOfMarchYear(g.m, g.k) <= 365
    ensures DayOfMarchYear(g.m, g.k) == 365 ==> LastFebruaryIsLong(g)
  {
  }

  lemma DayOfCenturyRange(g: Digits)
    requires ValidDigits(g)
    ensures var c := 1461 * g.d / 4 + DayOfMarchYear(g.m, g.k);
            0 <= c <= 36524 && (c == 36524 ==> g.b % 4 == 3)
  {
    DayOfMarchYearRange(g);
  }

  lemma GetYearMonthDayOfOrdinal(g: Digits)
    requires ValidDigits(g)
    ensures GetYearMonthDay(Ordinal(g) - 32044) == ToDate(g)
  {
    var e := DayOfMarchYear(g.m, g.k);
    var c := 1461 * g.d / 4 + e;
    DayOfMarchYearRange(g);
    DayOfCenturyRange(g);
    SplitMonth(g.m, g.k);
    SplitYear(g.d, e);
    SplitCentury(g.b, c);
    GetYearMonthDaySteps(Ordinal(g) - 32044, g.b, c, g.d, e, g.m);
  }

  /** The four successive quotients of `GetYearMonthDay`, for a day on or after the first. */
  lemma GetYearMonthDaySteps(j: int, b: int, c: int, d: int, e: int, m: int)
    requires j >= -32044 && c >= 0 && e >= 0
    requires (4 * (j + 32044) + 3) / 146097 == b && c == j + 32044 - 146097 * b / 4
    requires (4 * c + 3) / 1461 == d && e == c - 1461 * d / 4
    requires (5 * e + 2) / 153 == m
    ensures GetYearMonthDay(j) ==
            YearMonthDay(b * 100 + d - 4800 + m / 10, m + 3 - 12 * (m / 10), e - (153 * m + 2) / 5 + 1)
  {
    var a := j + 32044;
    assert TruncDiv(4 * a + 3, 146097) == b;
    assert a - TruncDiv(b * 146097, 4) == c;
    assert TruncDiv(4 * c + 3, 1461) == d;
    assert c - TruncDiv(1461 * d, 4) == e;
    assert TruncDiv(5 * e + 2, 153) == m;
  }

  // ---- The bijection ----

  lemma CenturyOfOrdinal(a: int)
    requires a >= 0
    ensures var b := (4 * a + 3) / 146097;
            var c := a - 146097 * b / 4;
            b >= 0 && 0 <= c <= 36524 && (c == 36524 ==> b % 4 == 3)
  {
  }

  lemma YearOfCentury(c: int)
    requires 0 <= c <= 36524
    ensures var d := (4 * c + 3) / 1461;
            var e := c - 1461 * d / 4;
            0 <= d < 100 && 0 <= e <= 365 && (e == 365 ==> d % 4 == 3 && (d == 99 ==> c == 36524))
  {
  }

  lemma OrdinalHasDigits(a: int) returns (g: Digits)
    requires a >= 0
    ensures ValidDigits(g) && Ordinal(g) == a
  {
    var b := (4 * a + 3) / 146097;
    var c := a - 146097 * b / 4;
    CenturyOfOrdinal(a);
    var d := (4 * c + 3) / 1461;
    var e := c - 1461 * d / 4;
    YearOfCentury(c);
    var m := (5 * e + 2) / 153;
    g := Digits(b, d, m, e - (153 * m + 2) / 5);
  }

  lemma JulianDayRoundTrip(j: int)
    requires j >= -32044
    ensures InCalendar(GetYearMonthDay(j)) && JulianDay(GetYearMonthDay(j)) == j
  {
    var g := OrdinalHasDigits(j + 32044);
    GetYearMonthDayOfOrdinal(g);
    DateOfDigits(g);
    JulianDayOfDigits(g);
  }

  /** Before the first day the truncating divisions give a day of the month below 1, every time. */
  lemma ValidExactlyFromFirstDay(j: int)
    ensures ValidDate(GetYearMonthDay(j)) <==> j >= -32044
  {
    if j >= -32044 {
      JulianDayRoundTrip(j);
    } else {
      var a := j + 32044;
      var b := TruncDiv(4 * a + 3, 146097);
      var c := a - TruncDiv(b * 146097, 4);
      assert c < 0;
      var d := TruncDiv(4 * c + 3, 1461);
      var e := c - TruncDiv(1461 * d, 4);
      assert e < 0;
      NegativeDayOfYear(e);
    }
  }

  lemma NegativeDayOfYear(e: int)
    requires e < 0
    ensures e - TruncDiv(153 * TruncDiv(5 * e + 2, 153) + 2, 5) + 1 < 1
  {
  }

  lemma DateInCalendarRoundTrip(d: YearMonthDay)
    requires InCalendar(d)
    ensures GetYearMonthDay(JulianDay(d)) == d && JulianDay(d) >= -32044
  {
    hide GetYearMonthDay, JulianDay, InCalendar, FromDate, ToDate, Ordinal, MarchMonthLength;
    var g := FromDate(d);
    DigitsOfDate(d);
    JulianDayOfDigits(g);
    GetYearMonthDayOfOrdinal(g);
    OrdinalIsNonNegative(g);
  }

  lemma OrdinalIsNonNegative(g: Digits)
    requires g.b >= 0 && g.d >= 0 && g.m >= 0 && g.k >= 0
    ensures Ordinal(g) >= 0
  {
    assert DayOfMarchYear(g.m, g.k) >= 0 && 1461 * g.d / 4 >= 0 && 146097 * g.b / 4 >= 0;
  }

  /** The other direction, on every valid date: it survives exactly when it is not before
      1 March -4800. */
  lemma DateRoundTrip(d: YearMonthDay)
    requires ValidDate(d)
    ensures GetYearMonthDay(JulianDay(d)) == d <==> InCalendar(d)
    ensures InCalendar(d) ==> JulianDay(d) >= -32044
  {
    hide *;
    if InCalendar(d) {
      DateInCalendarRoundTrip(d);
    } else if JulianDay(d) >= -32044 {
      JulianDayRoundTrip(JulianDay(d));
    } else {
      ValidExactlyFromFirstDay(JulianDay(d));
    }
  }

  /** The day before the calendar starts: 29 February and 1 March -4800 share a number. */
  lemma FirstCollision()
    ensures var d := YearMonthDay(-4800, 2, 29);
            ValidDate(d) && NextDay(d) == FIRST_DATE && JulianDay(d) == JulianDay(FIRST_DATE)
  {
  }

  // ---- Counting days ----

  function NextDigits(g: Digits): Digits {
    if g.k + 1 < MarchMonthLength(g) then g.(k := g.k + 1)
    else if g.m < 11 then g.(m := g.m + 1, k := 0)
    else if g.d < 99 then Digits(g.b, g.d + 1, 0, 0)
    else Digits(g.b + 1, 0, 0, 0)
  }

  lemma NextMonth(g: Digits)
    requires ValidDigits(g) && g.m < 11 && g.k + 1 == MarchMonthLength(g)
    ensures DayOfMarchYear(g.m + 1, 0) == DayOfMarchYear(g.m, g.k) + 1
  {
  }

  lemma NextYear(b: int, d: int)
    requires 0 <= b && 0 <= d < 100
    ensures 1461 * (d + 1) / 4 == 1461 * d / 4 + (if d % 4 == 3 then 366 else 365)
    ensures 146097 * (b + 1) / 4 == 146097 * b / 4 + (if b % 4 == 3 then 36525 else 36524)
  {
  }

  lemma NextOrdinal(g: Digits)
    requires ValidDigits(g)
    ensures ValidDigits(NextDigits(g)) && Ordinal(NextDigits(g)) == Ordinal(g) + 1
  {
    if g.k + 1 == MarchMonthLength(g) {
      if g.m < 11 {
        NextMonth(g);
      } else {
        assert DayOfMarchYear(11, g.k) == if LastFebruaryIsLong(g) then 365 else 364;
        NextYear(g.b, g.d);
      }
    }
  }

  lemma NextDayOfDigits(g: Digits)
    requires ValidDigits(g)
    ensures ValidDate(ToDate(g)) && ToDate(NextDigits(g)) == NextDay(ToDate(g))
  {
    DateOfDigits(g);
    LeapDigits(g.b, g.d);
  }

  lemma NextDayAddsOne(d: YearMonthDay)
    requires InCalendar(d)
    ensures InCalendar(NextDay(d)) && JulianDay(NextDay(d)) == JulianDay(d) + 1
  {
    hide JulianDay, NextDay;
    var g := FromDate(d);
    DigitsOfDate(d);
    NextOrdinal(g);
    NextDayOfDigits(g);
    DateOfDigits(NextDigits(g));
    JulianDayOfDigits(g);
    JulianDayOfDigits(NextDigits(g));
  }

  lemma NextDayOfJulianDay(j: int)
    requires j >= -32044
    ensures ValidDate(GetYearMonthDay(j)) && GetYearMonthDay(j + 1) == NextDay(GetYearMonthDay(j))
  {
    hide GetYearMonthDay, JulianDay, NextDay, ValidDate;
    JulianDayRoundTrip(j);
    NextDayAfter(GetYearMonthDay(j));
  }

  lemma NextDayAfter(d: YearMonthDay)
    requires InCalendar(d)
    ensures GetYearMonthDay(JulianDay(d) + 1) == NextDay(d)
  {
    hide GetYearMonthDay, JulianDay, NextDay;
    NextDayAddsOne(d);
    DateRoundTrip(NextDay(d));
  }

  lemma {:induction false} LaterJulianDayIsLaterDate(j: int, n: nat)
    requires j >= -32044 && n > 0
    ensures Before(GetYearMonthDay(j), GetYearMonthDay(j + n))
    decreases n
  {
    hide GetYearMonthDay;
    var last := j + n - 1;
    NextDayOfJulianDay(last);
    if n > 1 {
      LaterJulianDayIsLaterDate(j, n - 1);
    }
  }

  /** Julian day numbers order the dates of the calendar exactly as the calendar does. */
  lemma JulianDayOrder(c: YearMonthDay, d: YearMonthDay)
    requires InCalendar(c) && InCalendar(d)
    ensures Before(c, d) <==> JulianDay(c) < JulianDay(d)
  {
    hide GetYearMonthDay, JulianDay, ValidDate;
    DateRoundTrip(c);
    DateRoundTrip(d);
    if JulianDay(c) < JulianDay(d) {
      LaterJulianDayIsLaterDate(JulianDay(c), JulianDay(d) - JulianDay(c));
    } else if JulianDay(d) < JulianDay(c) {
      LaterJulianDayIsLaterDate(JulianDay(d), JulianDay(c) - JulianDay(d));
    }
  }

  /** The date `n` days on, by the calendar alone. */
  function Advance(d: YearMonthDay, n: nat): (r: YearMonthDay)
    requires ValidDate(d)
    ensures ValidDate(r)
    decreases n
  {
    if n == 0 then d else NextDay(Advance(d, n - 1))
  }

  lemma {:induction false} AdvanceAddsDays(d: YearMonthDay, n: nat)
    requires InCalendar(d)
    ensures InCalendar(Advance(d, n)) && JulianDay(Advance(d, n)) == JulianDay(d) + n
    decreases n
  {
    hide JulianDay, NextDay, ValidDate;
    if n > 0 {
      AdvanceAddsDays(d, n - 1);
      NextDayAddsOne(Advance(d, n - 1));
    }
  }

  /** The difference of two Julian day numbers is the number of days between the dates. */
  lemma DifferenceCountsDays(c: YearMonthDay, d: YearMonthDay)
    requires InCalendar(c) && InCalendar(d) && !Before(d, c)
    ensures JulianDay(d) >= JulianDay(c)
    ensures Advance(c, JulianDay(d) - JulianDay(c)) == d
  {
    hide GetYearMonthDay, JulianDay, ValidDate, Advance, Before;
    JulianDayOrder(d, c);
    AdvanceAddsDays(c, JulianDay(d) - JulianDay(c));
    DateInCalendarRoundTrip(d);
    DateInCalendarRoundTrip(Advance(c, JulianDay(d) - JulianDay(c)));
  }

  lemma DayOffset(year: int, month: int, day: int)
    ensures GetJulianDayNumber(year, month, day) == GetJulianDayNumber(year, month, 1) + day - 1
  {
    hide TruncDiv;
  }

  lemma NextMonthStart(year: int, month: int)
    requires year >= -4799 && 1 <= month <= 11
    ensures GetJulianDayNumber(year, month + 1, 1)
         == GetJulianDayNumber(year, month, 1) + DaysInMonth(year, month)
  {
    hide GetJulianDayNumber;
    var last := YearMonthDay(year, month, DaysInMonth(year, month));
    NextDayAddsOne(last);
    DayOffset(year, month, last.day);
  }

  lemma {:induction false} MonthStart(year: int, month: int, day: int)
    requires year >= -4799 && 1 <= month <= 12
    ensures GetJulianDayNumber(year, month, day)
         == GetJulianDayNumber(year, 1, 1) + DaysBeforeMonth(year, month) + day - 1
    decreases month
  {
    hide GetJulianDayNumber;
    DayOffset(year, month, day);
    if month > 1 {
      MonthStart(year, month - 1, 1);
      NextMonthStart(year, month - 1);
    }
  }

  lemma DaysBeforeNextMonth(year: int, month: int)
    requires 1 <= month <= 12
    ensures 0 <= DaysBeforeMonth(year, month)
    ensures DaysBeforeMonth(year, month) + DaysInMonth(year, month) <= DaysInYear(year)
    decreases 12 - month
  {
    assert DaysBeforeMonth(year, 2) == 31;
    assert DaysBeforeMonth(year, 4) == 62 + DaysInMonth(year, 2);
    assert DaysBeforeMonth(year, 6) == 123 + DaysInMonth(year, 2);
    assert DaysBeforeMonth(year, 8) == 184 + DaysInMonth(year, 2);
    assert DaysBeforeMonth(year, 10) == 245 + DaysInMonth(year, 2);
    assert DaysBeforeMonth(year, 12) == 306 + DaysInMonth(year, 2);
  }

  lemma YearStart(year: int)
    requires year >= -4799
    ensures GetJulianDayNumber(year + 1, 1, 1) == GetJulianDayNumber(year, 1, 1) + DaysInYear(year)
  {
    MonthStart(year, 12, 31);
    NextDayAddsOne(YearMonthDay(year, 12, 31));
    assert DaysBeforeMonth(year, 12) == 306 + DaysInMonth(year, 2) by {
      DaysBeforeNextMonth(year, 12);
      assert DaysBeforeMonth(year, 10) == 245 + DaysInMonth(year, 2);
    }
  }

  // ---- Thirty-two bits ----

  lemma CheckedYearMonthDayBounds(a: int)
    requires -0x2000_0000 <= a < 0x2000_0000
    ensures var b := TruncDiv(4 * a + 3, 146097);
            var c := a - TruncDiv(b * 146097, 4);
            FitsInt(b * 146097) && -15000 <= b <= 15000 && -36526 <= c <= 36526
  {
  }

  lemma CheckedYearBounds(c: int)
    requires -36526 <= c <= 36526
    ensures var d := TruncDiv(4 * c + 3, 1461);
            var e := c - TruncDiv(1461 * d, 4);
            -101 <= d <= 101 && -367 <= e <= 367
  {
  }

  lemma CheckedMonthBounds(e: int)
    requires -367 <= e <= 367
    ensures var m := TruncDiv(5 * e + 2, 153);
            -12 <= m <= 12 && -2 <= TruncDiv(m, 10) <= 2 && -400 <= TruncDiv(153 * m + 2, 5) <= 400
  {
  }

  /** The exact range of Julian day numbers that the 32-bit evaluation survives. Both ends are
      set by `4 * a`; inside them no intermediate result overflows. */
  lemma YearMonthDayOverflowsExactly(j: int)
    ensures CheckedYearMonthDay(j)
         == if -536902956 <= j <= 536838867 then Value(GetYearMonthDay(j)) else Overflow
  {
    hide TruncDiv;
    var a := j + 32044;
    if -0x2000_0000 <= a < 0x2000_0000 {
      CheckedYearMonthDayBounds(a);
      var c := a - TruncDiv(TruncDiv(4 * a + 3, 146097) * 146097, 4);
      CheckedYearBounds(c);
      CheckedMonthBounds(c - TruncDiv(1461 * TruncDiv(4 * c + 3, 1461), 4));
    }
  }

  /** The last date whose number the 32-bit evaluation gives. */
  const LAST_CHECKED_DATE := YearMonthDay(5874689, 12, 15)

  lemma CarriedYear(month: int)
    requires 1 <= month <= 12
    ensures TruncDiv(14 - month, 12) == if month <= 2 then 1 else 0
  {
  }

  lemma YearTerms(y: int)
    requires y >= 0
    ensures 0 <= TruncDiv(y, 400) <= TruncDiv(y, 100) <= TruncDiv(y, 4) <= y
  {
  }

  lemma MonthTerm(m: int, day: int)
    requires 0 <= m <= 11 && 1 <= day <= 31
    ensures 0 <= TruncDiv(153 * m + 2, 5) <= 337
    ensures TruncDiv(153 * m + 2, 5) + day <= 290 <==> m < 9 || (m == 9 && day <= 15)
  {
  }

  /** The sum that overflows first, before the centuries are taken off. */
  lemma LargestSum(y: int, t: int)
    requires y >= 0 && 1 <= t <= 368
    ensures t + y * 365 + TruncDiv(y, 4) <= INT_MAX <==> y < 5879489 || (y == 5879489 && t <= 290)
  {
  }

  /** The exact dates of the calendar that the 32-bit evaluation survives. */
  lemma JulianDayNumberOverflowsExactly(d: YearMonthDay)
    requires InCalendar(d)
    ensures CheckedJulianDayNumber(d.year, d.month, d.day)
         == if Before(LAST_CHECKED_DATE, d) then Overflow else Value(JulianDay(d))
  {
    hide TruncDiv;
    var a := TruncDiv(14 - d.month, 12);
    CarriedYear(d.month);
    var y := d.year + 4800 - a;
    var m := d.month + 12 * a - 3;
    YearTerms(y);
    MonthTerm(m, d.day);
    LargestSum(y, TruncDiv(153 * m + 2, 5) + d.day);
  }

  lemma YearBound(d: YearMonthDay)
    requires InCalendar(d) && JulianDay(d) <= 536838867
    ensures d.year < 1_470_000
  {
    var bound := YearMonthDay(1_470_000, 1, 1);
    assert JulianDay(bound) > 536838867;
    JulianDayOrder(d, bound);
  }

  lemma JulianDayNumberNeverOverflows(j: int)
    requires -32044 <= j <= 536838867
    ensures var d := GetYearMonthDay(j);
            CheckedJulianDayNumber(d.year, d.month, d.day) == Value(j)
  {
    hide GetYearMonthDay, JulianDay, CheckedJulianDayNumber, ValidDate;
    JulianDayRoundTrip(j);
    YearBound(GetYearMonthDay(j));
    JulianDayNumberOverflowsExactly(GetYearMonthDay(j));
  }
}
