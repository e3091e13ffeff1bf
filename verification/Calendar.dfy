/**
 The rendering of a `Timestamp` as a date and time (crypto-commons/src/lib.rs),
 against the calendar of RFC 3339: month lengths of section 5.7, leap years of
 Appendix C.
 */
module Calendar {
  import opened Bits

  // ------------------------------------------------------- the calendar

  predicate IsLeap(y: int) { y % 4 == 0 && (y % 100 != 0 || y % 400 == 0) }

  function DaysInMonth(y: int, m: int): int {
    if m == 2 then (if IsLeap(y) then 29 else 28)
    else if m == 4 || m == 6 || m == 9 || m == 11 then 30 else 31
  }

  function DaysInYear(y: int): int { if IsLeap(y) then 366 else 365 }

  /** Days from 1970-01-01 to January 1 of y, by counting years. */
  function YearStart(y: int): int
    decreases if y >= 1970 then y - 1970 else 1970 - y
  {
    if y == 1970 then 0
    else if y > 1970 then YearStart(y - 1) + DaysInYear(y - 1)
    else YearStart(y + 1) - DaysInYear(y)
  }

  /** Days from January 1 to the first of month m, by counting months. */
  function MonthStart(y: int, m: nat): int
    requires m >= 1
  {
    if m == 1 then 0 else MonthStart(y, m - 1) + DaysInMonth(y, m - 1)
  }

  datatype DateTime = DateTime(year: int, month: int, day: int, hour: int, minute: int, second: int)

  predicate ValidDate(y: int, m: int, d: int) { 1 <= m <= 12 && 1 <= d <= DaysInMonth(y, m) }

  predicate Valid(t: DateTime) {
    && ValidDate(t.year, t.month, t.day)
    && 0 <= t.hour < 24 && 0 <= t.minute < 60 && 0 <= t.second < 60
  }

  function DayNumber(y: int, m: int, d: int): int
    requires m >= 1
  {
    YearStart(y) + MonthStart(y, m) + d - 1
  }

  /** Seconds from 1970-01-01T00:00:00Z. */
  function SecondsOf(t: DateTime): int
    requires Valid(t)
  {
    86400 * DayNumber(t.year, t.month, t.day) + 3600 * t.hour + 60 * t.minute + t.second
  }

  // ---------------------------------------------------- the source's code

  /** Integer division of the source on signed operands: towards zero. */
  function TruncatedDiv(a: int, b: int): int
    requires b > 0
  {
    if a >= 0 then a / b else -((-a) / b)
  }

  /**
   The rendered date and time. Every variable has the source's integer type,
   so none overflows; the result is a valid date and time that is the given
   number of seconds from the epoch.
   */
  method Render(totalSecs: i64) returns (t: DateTime)
    ensures Valid(t) && SecondsOf(t) == totalSecs
  {
    hide ValidDate, DayNumber;
    var days: i64 := totalSecs / 86400;
    var daySecs: u64 := totalSecs % 86400;
    var hours: u64 := daySecs / 3600;
    daySecs := daySecs % 3600;
    var minutes: u64 := daySecs / 60;
    var seconds: u64 := daySecs % 60;
    var year, m, d := CivilFromDays(days);
    t := DateTime(year, m, d, hours, minutes, seconds);
  }

  /** The date that is epochDay days from 1970-01-01, for any day an i64 second count reaches. */
  method CivilFromDays(epochDay: i64) returns (year: i64, m: u64, d: u64)
    requires -0x8000_0000_0000_0000 / 86400 <= epochDay <= 0x7fff_ffff_ffff_ffff / 86400
    ensures ValidDate(year, m, d) && DayNumber(year, m, d) == epochDay
  {
    hide *;
    var days: i64 := epochDay + 719_468;
    var dividend: i64 := if days >= 0 then days else days - 146_096;
    EraIsFloor(days);
    EraRange(days);
    var era: i64 := TruncatedDiv(dividend, 146_097);
    var doe: u64 := days - era * 146_097;
    YearOfEra(doe);
    var yoe: u64 := (doe - doe / 1460 + doe / 36524 - doe / 146_096) / 365;
    var y: i64 := yoe + era * 400;
    var doy: u64 := doe - (365 * yoe + yoe / 4 - yoe / 100);
    var mp: u64 := (5 * doy + 2) / 153;
    MarchYearIs(yoe);
    DateFromMarch(era, yoe, doy, epochDay);
    d := doy - (153 * mp + 2) / 5 + 1;
    m := if mp < 10 then mp + 3 else mp - 9;
    year := if m <= 2 then y + 1 else y;
  }

  // -------------------------------------------------------------- proof

  lemma EraIsFloor(days: int)
    ensures var era := TruncatedDiv(if days >= 0 then days else days - 146_096, 146_097);
      era == days / 146_097 && 0 <= days - era * 146_097 < 146_097
  {
  }

  lemma EraRange(days: int)
    ensures -0x8000_0000_0000_0000 / 86400 <= days - 719_468 <= 0x7fff_ffff_ffff_ffff / 86400 ==>
            -0x1_0000_0000 <= days / 146_097 <= 0x1_0000_0000
  {
  }

  lemma MarchYearIs(k: int)
    ensures MarchYear(k) == 365 * k + k / 4 - k / 100
  {
  }

  /** Days from the start of an era to the start of its year k, years starting in March. */
  function MarchYear(k: int): int { 365 * k + k / 4 - k / 100 }

  /** A day of an era is c centuries, q four-year groups and s days in. */
  lemma SplitDay(doe: int) returns (c: int, q: int, s: int)
    requires 0 <= doe < 146_097
    ensures doe == 36_524 * c + 1461 * q + s
    ensures 0 <= c < 4 && 0 <= q < 25 && 0 <= s <= 1460
    ensures q == 24 && s == 1460 ==> c == 3
    ensures doe / 36_524 - doe / 146_096 == c
  {
    c := if doe == 146_096 then 3 else doe / 36_524;
    var r := doe - 36_524 * c;
    q, s := r / 1461, r % 1461;
  }

  /** The division formula counts the centuries, the four-year groups and the years. */
  lemma FormulaYear(doe: int, c: int, q: int, s: int)
    requires doe == 36_524 * c + 1461 * q + s && 0 <= c < 4 && 0 <= q < 25 && 0 <= s <= 1460
    requires q == 24 && s == 1460 ==> c == 3
    requires doe / 36_524 - doe / 146_096 == c
    ensures (doe - doe / 1460 + doe / 36524 - doe / 146_096) / 365 ==
            100 * c + 4 * q + if s == 1460 then 3 else s / 365
  {
    var carry := if 24 * c + q + s >= 1460 then 1 else 0;
    FourYears(doe, c, q, s, carry);
    YearsOfGroup(s, carry, 24 * c + q);
    assert doe - doe / 1460 + doe / 36524 - doe / 146_096 == 365 * (100 * c + 4 * q) + (s - carry);
  }

  lemma FourYears(doe: int, c: int, q: int, s: int, carry: int)
    requires doe == 36_524 * c + 1461 * q + s && 0 <= c < 4 && 0 <= q < 25 && 0 <= s <= 1460
    requires carry == if 24 * c + q + s >= 1460 then 1 else 0
    ensures doe / 1460 == 25 * c + q + carry
  {
  }

  lemma YearsOfGroup(s: int, carry: int, days: int)
    requires 0 <= s <= 1460 && 0 <= days <= 96 && carry == if days + s >= 1460 then 1 else 0
    ensures (s - carry) / 365 == if s == 1460 then 3 else s / 365
  {
  }

  lemma YearParts(c: int, q: int, k: int)
    requires 0 <= c < 4 && 0 <= q < 25 && 0 <= k < 4
    ensures var yoe := 100 * c + 4 * q + k;
      yoe / 4 == 25 * c + q && yoe / 100 == c && 0 <= yoe < 400
  {
  }

  lemma LastYear(c: int, q: int)
    requires 0 <= c < 4 && 0 <= q < 25 && (q == 24 ==> c == 3)
    ensures IsLeap(100 * c + 4 * q + 3 + 1)
  {
    var y := 100 * c + 4 * q + 4;
    assert y == 4 * (25 * c + q + 1);
    if q < 24 { assert y % 100 == 4 * q + 4; }
  }

  /** The year of the era, with the day within it. */
  lemma YearOfEra(doe: int)
    requires 0 <= doe < 146_097
    ensures var yoe := (doe - doe / 1460 + doe / 36524 - doe / 146_096) / 365;
      var doy := doe - (365 * yoe + yoe / 4 - yoe / 100);
      0 <= yoe < 400 && 0 <= doy < (if IsLeap(yoe + 1) then 366 else 365) <= 366
  {
    hide *;
    var c, q, s := SplitDay(doe);
    var k := if s == 1460 then 3 else s / 365;
    var yoe := 100 * c + 4 * q + k;
    FormulaYear(doe, c, q, s);
    YearParts(c, q, k);
    if s == 1460 {
      LastYear(c, q);
    }
  }

  // ------------------------------- years from March and years from January

  /** Leap days up to and including year y. */
  function Leaps(y: int): int { y / 4 - y / 100 + y / 400 }

  lemma FactorsOfYear(y: int)
    ensures y % 100 == 0 ==> y % 4 == 0
    ensures y % 400 == 0 ==> y % 100 == 0
  {
  }

  lemma LeapsIs(y: int)
    ensures Leaps(y) == y / 4 - y / 100 + y / 400
  {
  }

  lemma LeapIs(y: int)
    ensures IsLeap(y) <==> y % 4 == 0 && (y % 100 != 0 || y % 400 == 0)
  {
  }

  lemma LeapStep(y: int)
    ensures Leaps(y) == Leaps(y - 1) + (if IsLeap(y) then 1 else 0)
  {
    hide *;
    QuotientStep(y, 4);
    QuotientStep(y, 100);
    QuotientStep(y, 400);
    FactorsOfYear(y);
    LeapsIs(y);
    LeapsIs(y - 1);
    LeapIs(y);
  }

  lemma QuotientStep(y: int, n: int)
    requires n > 1
    ensures y / n == (y - 1) / n + (if y % n == 0 then 1 else 0)
  {
    var q, r := y / n, y % n;
    if r == 0 {
      assert y - 1 == n * (q - 1) + (n - 1);
      QuotientUnique(y - 1, n, q - 1, n - 1);
    } else {
      QuotientUnique(y - 1, n, q, r - 1);
    }
  }

  lemma {:induction false} YearStartClosed(y: int)
    ensures YearStart(y) == 365 * (y - 1970) + Leaps(y - 1) - 477
    decreases if y >= 1970 then y - 1970 else 1970 - y
  {
    if y > 1970 {
      YearStartClosed(y - 1);
      LeapStep(y - 1);
    } else if y < 1970 {
      YearStartClosed(y + 1);
      LeapStep(y);
    }
  }

  /** Days before month m, in the source's formula for months counted from March. */
  lemma MonthStartClosed(y: int, m: int)
    requires 1 <= m <= 12
    ensures MonthStart(y, m) == if m == 1 then 0 else if m == 2 then 31
                                else (if IsLeap(y) then 60 else 59) + (153 * (m - 3) + 2) / 5
  {
    if m > 1 { MonthStartClosed(y, m - 1); }
  }

  /** March 1 of year y, counted from January and counted from March 1 of year 0. */
  lemma MarchFirst(y: int)
    ensures YearStart(y) + MonthStart(y, 3) == 365 * y + Leaps(y) - 719_468
  {
    YearStartClosed(y);
    MonthStartClosed(y, 3);
    LeapStep(y);
  }

  lemma EraYears(era: int, yoe: int)
    requires 0 <= yoe < 400
    ensures 365 * (yoe + era * 400) + Leaps(yoe + era * 400) == era * 146_097 + MarchYear(yoe)
    ensures IsLeap(yoe + era * 400 + 1) == IsLeap(yoe + 1)
  {
    var y := yoe + era * 400;
    ShiftedQuotient(yoe, era * 100, 4);
    ShiftedQuotient(yoe, era * 4, 100);
    ShiftedQuotient(yoe, era, 400);
    ShiftedQuotient(yoe + 1, era * 100, 4);
    ShiftedQuotient(yoe + 1, era * 4, 100);
    ShiftedQuotient(yoe + 1, era, 400);
  }

  lemma ShiftedQuotient(x: int, k: int, n: int)
    requires n > 0
    ensures (x + k * n) / n == x / n + k && (x + k * n) % n == x % n
  {
    assert x + k * n == n * (x / n + k) + x % n;
    QuotientUnique(x + k * n, n, x / n + k, x % n);
  }

  /** The month and day of a day of the March year. */
  lemma MonthAndDay(y: int, doy: int)
    requires 0 <= doy < (if IsLeap(y + 1) then 366 else 365)
    ensures var mp := (5 * doy + 2) / 153;
      var d := doy - (153 * mp + 2) / 5 + 1;
      var m := if mp < 10 then mp + 3 else mp - 9;
      var year := if m <= 2 then y + 1 else y;
      ValidDate(year, m, d) && DayNumber(year, m, d) == YearStart(y) + MonthStart(y, 3) + doy
  {
    var mp := (5 * doy + 2) / 153;
    var m := if mp < 10 then mp + 3 else mp - 9;
    MarchFirst(y);
    if mp < 10 {
      MonthStartClosed(y, m);
      MonthStartClosed(y, 3);
    } else {
      MonthStartClosed(y + 1, m);
      YearStartClosed(y + 1);
    }
    DayInMonth(y, doy, mp);
  }

  lemma DayInMonth(y: int, doy: int, mp: int)
    requires 0 <= doy < (if IsLeap(y + 1) then 366 else 365) && mp == (5 * doy + 2) / 153
    ensures 0 <= mp < 12
    ensures var m := if mp < 10 then mp + 3 else mp - 9;
      1 <= doy - (153 * mp + 2) / 5 + 1 <= DaysInMonth(if m <= 2 then y + 1 else y, m)
  {
  }

  lemma DateFromMarch(era: int, yoe: int, doy: int, epochDay: int)
    requires 0 <= yoe < 400 && 0 <= doy < (if IsLeap(yoe + 1) then 366 else 365)
    requires epochDay + 719_468 == era * 146_097 + MarchYear(yoe) + doy
    ensures var y := yoe + era * 400;
      var mp := (5 * doy + 2) / 153;
      var d := doy - (153 * mp + 2) / 5 + 1;
      var m := if mp < 10 then mp + 3 else mp - 9;
      var year := if m <= 2 then y + 1 else y;
      0 <= mp < 12 && 1 <= d <= 31 && ValidDate(year, m, d) && DayNumber(year, m, d) == epochDay
  {
    var y := yoe + era * 400;
    EraYears(era, yoe);
    MarchFirst(y);
    MonthAndDay(y, doy);
    DayInMonth(y, doy, (5 * doy + 2) / 153);
  }

  // -------------------------------------------------------------- order

  /** Lexicographic order of the rendered fields. */
  predicate Before(t: DateTime, u: DateTime) {
    t.year < u.year || (t.year == u.year && (t.month < u.month || (t.month == u.month && (t.day < u.day ||
    (t.day == u.day && (t.hour < u.hour || (t.hour == u.hour && (t.minute < u.minute ||
    (t.minute == u.minute && t.second < u.second)))))))))
  }

  lemma {:induction false} YearStartMono(y: int, z: int)
    requires y < z
    ensures YearStart(y) + DaysInYear(y) <= YearStart(z)
  {
    YearStartClosed(y);
    YearStartClosed(z);
    LeapStep(y);
    LeapsMono(y, z - 1);
  }

  lemma LeapsMono(y: int, z: int)
    requires y <= z
    ensures Leaps(y) - Leaps(z) <= 365 * (z - y)
  {
  }

  /** Dates order as their day numbers. */
  lemma DayOrder(y: int, m: int, d: int, z: int, n: int, e: int)
    requires ValidDate(y, m, d) && ValidDate(z, n, e)
    requires y < z || (y == z && (m < n || (m == n && d < e)))
    ensures DayNumber(y, m, d) < DayNumber(z, n, e)
  {
    MonthStartClosed(y, m);
    MonthStartClosed(z, n);
    if y < z { YearStartMono(y, z); }
  }

  /**
   Rendered fields are strictly increasing in the seconds, so no two moments
   render alike and `Render` is the only valid date and time for its input.
   */
  lemma OrderAgrees(t: DateTime, u: DateTime)
    requires Valid(t) && Valid(u)
    ensures Before(t, u) <==> SecondsOf(t) < SecondsOf(u)
    ensures t == u <==> SecondsOf(t) == SecondsOf(u)
  {
    if Before(t, u) { BeforeMeansLess(t, u); }
    if Before(u, t) { BeforeMeansLess(u, t); }
  }

  lemma BeforeMeansLess(t: DateTime, u: DateTime)
    requires Valid(t) && Valid(u) && Before(t, u)
    ensures SecondsOf(t) < SecondsOf(u)
  {
    if (t.year, t.month, t.day) != (u.year, u.month, u.day) {
      DayOrder(t.year, t.month, t.day, u.year, u.month, u.day);
    }
  }
}
