/** Seconds since the Epoch from a broken-down time.  Years count from 1900 and
    months from 0, as in struct tm. */
module Time {
  import opened Arith
  import opened CLib

  function CMod(a: int, b: int): int
    requires b > 0
  {
    a - b * CDiv(a, b)
  }

  predicate IsLeapYear(year: int) {
    if CMod(year, 400) == 100 then true
    else if CMod(year, 100) == 0 then false
    else CMod(year, 4) == 0
  }

  function LeapYearsToEnd(year: int): int {
    CDiv(year, 4) - CDiv(year, 100) + CDiv(year + 300, 400)
  }

  function Offset(mon: nat): int
    requires mon < 12
  {
    [1, 4, 3, 6, 1, 4, 6, 2, 5, 0, 3, 5][mon]
  }

  function DayOfWeek(year: int, mon: nat, mday: int): int
    requires mon < 12
  {
    var pseudo := if mon < 2 then year - 1 else year;
    CMod(pseudo + LeapYearsToEnd(pseudo) + Offset(mon) + mday, 7)
  }

  function DaysToMonthStart(mon: nat): int
    requires mon < 12
  {
    [0, 31, 59, 90, 120, 151, 181, 212, 243, 273, 304, 334][mon]
  }

  function DayOfYear(year: int, mon: nat, mday: int): int
    requires mon < 12
  {
    mday - 1 + DaysToMonthStart(mon) + if mon >= 2 && IsLeapYear(year) then 1 else 0
  }

  function DaysSinceEpoch(year: int, mon: nat, mday: int): int
    requires mon < 12
  {
    DayOfYear(year, mon, mday) + 365 * year - 25567 + LeapYearsToEnd(year - 1)
  }

  /** The Gregorian calendar. */
  datatype Date = Date(year: nat, mon: nat, mday: nat)

  predicate Gregorian(y: int) { y % 4 == 0 && (y % 100 != 0 || y % 400 == 0) }

  function MonthLength(year: nat, mon: nat): nat
    requires mon < 12
  {
    if mon == 1 then (if Gregorian(1900 + year) then 29 else 28)
    else if mon == 3 || mon == 5 || mon == 8 || mon == 10 then 30
    else 31
  }

  predicate ValidDate(d: Date) {
    d.mon < 12 && 1 <= d.mday <= MonthLength(d.year, d.mon)
  }

  /** The day after. */
  function NextDay(d: Date): (r: Date)
    requires ValidDate(d)
    ensures ValidDate(r)
  {
    if d.mday < MonthLength(d.year, d.mon) then d.(mday := d.mday + 1)
    else if d.mon < 11 then Date(d.year, d.mon + 1, 1)
    else Date(d.year + 1, 0, 1)
  }

  function Days(d: Date): int
    requires ValidDate(d)
  {
    DaysSinceEpoch(d.year, d.mon, d.mday)
  }

  lemma CModNat(a: nat, b: nat)
    requires b > 0
    ensures CMod(a, b) == a % b
  {
  }

  /** Remainders of a year are those of its place in its four centuries. */
  lemma YearParts(year: nat, q: nat, r: nat)
    requires year == r + q * 400 && r < 400
    ensures CMod(year, 400) == r && CMod(year, 100) == r % 100 && CMod(year, 4) == r % 4
    ensures (1900 + year) % 400 == (r + 300) % 400 && (1900 + year) % 100 == r % 100 && (1900 + year) % 4 == r % 4
    ensures (year + 300) % 400 == (r + 300) % 400 && year % 100 == r % 100 && year % 4 == r % 4
  {
    CModNat(year, 400);
    CModNat(year, 100);
    CModNat(year, 4);
    ModAddMultiple(r, q, 400);
    ModAddMultiple(r, 4 * q, 100);
    ModAddMultiple(r, 100 * q, 4);
    ModAddMultiple(r + 300, q, 400);
    ModAddMultiple(r + 300, q + 4, 400);
    ModAddMultiple(r, 4 * q + 19, 100);
    ModAddMultiple(r, 100 * q + 475, 4);
  }

  lemma LeapIsGregorian(year: nat)
    ensures IsLeapYear(year) == Gregorian(1900 + year)
  {
    hide CMod;
    var r := year % 400;
    YearParts(year, year / 400, r);
    assert (r + 300) % 400 == 0 <==> r == 100;
    assert r == 100 ==> r % 100 == 0 && r % 4 == 0;
    assert r % 100 == 0 ==> r % 4 == 0;
  }

  /** The count of leap years goes up by one at each leap year. */
  lemma LeapCount(year: nat)
    ensures LeapYearsToEnd(year) == LeapYearsToEnd(year - 1) + if IsLeapYear(year) then 1 else 0
  {
    hide CMod;
    var r := year % 400;
    YearParts(year, year / 400, r);
    assert (r + 300) % 400 == 0 <==> r == 100;
    assert r % 100 == 0 ==> r % 4 == 0;
    if year > 0 { LeapStep(year); }
  }

  lemma LeapStep(year: nat)
    requires year > 0
    ensures LeapYearsToEnd(year) == LeapYearsToEnd(year - 1) + (if year % 4 == 0 then 1 else 0)
      - (if year % 100 == 0 then 1 else 0) + if (year + 300) % 400 == 0 then 1 else 0
  {
    DivStep(year, 4);
    DivStep(year, 100);
    DivStep(year + 300, 400);
  }

  lemma DivStep(x: nat, m: nat)
    requires x > 0 && m > 1
    ensures CDiv(x, m) == CDiv(x - 1, m) + if x % m == 0 then 1 else 0
  {
    var q, r := x / m, x % m;
    assert x == q * m + r;
    if r == 0 {
      assert x - 1 == (q - 1) * m + (m - 1);
      DivModUnique(x - 1, q - 1, m - 1, m);
    } else {
      DivModUnique(x - 1, q, r - 1, m);
    }
  }

  /** Consecutive days are one apart. */
  lemma NextDayIsNext(d: Date)
    requires ValidDate(d)
    ensures Days(NextDay(d)) == Days(d) + 1
  {
    hide IsLeapYear, LeapYearsToEnd, Gregorian;
    LeapIsGregorian(d.year);
    LeapCount(d.year);
    assert (d.year + 1) - 1 == d.year;
  }

  const FIRST := Date(0, 0, 1)

  /** The date `n` days after the first of January 1900. */
  function DateOf(n: nat): (d: Date)
    ensures ValidDate(d)
  {
    if n == 0 then FIRST else NextDay(DateOf(n - 1))
  }

  lemma {:induction false} DateOfDays(n: nat)
    ensures Days(DateOf(n)) == n - 25567
  {
    hide NextDay, Days;
    if n == 0 {
      FirstDay();
    } else {
      DateOfDays(n - 1);
      NextDayIsNext(DateOf(n - 1));
    }
  }

  lemma FirstDay()
    ensures Days(FIRST) == -25567 && Days(Date(70, 0, 1)) == 0
  {
  }

  /** The day before, of any day but the first. */
  lemma DayBefore(d: Date) returns (p: Date)
    requires ValidDate(d) && d != FIRST
    ensures ValidDate(p) && NextDay(p) == d
  {
    if d.mday > 1 { p := d.(mday := d.mday - 1); }
    else if d.mon > 0 { p := Date(d.year, d.mon - 1, MonthLength(d.year, d.mon - 1)); }
    else { p := Date(d.year - 1, 11, 31); }
  }

  lemma {:induction false} LaterDates(d: Date)
    requires ValidDate(d)
    ensures Days(d) >= -25567 && DateOf(Days(d) + 25567) == d
    decreases d.year, d.mon, d.mday
  {
    hide NextDay, Days;
    if d == FIRST {
      FirstDay();
    } else {
      var p := DayBefore(d);
      NextDayIsNext(p);
      Earlier(p, d);
      LaterDates(p);
    }
  }

  lemma Earlier(p: Date, d: Date)
    requires ValidDate(p) && d == NextDay(p)
    ensures p.year < d.year || (p.year == d.year && (p.mon < d.mon || (p.mon == d.mon && p.mday < d.mday)))
  {
  }

  /** The table gives the weekday: the Epoch was a Thursday. */
  lemma Weekday(d: Date)
    requires ValidDate(d)
    ensures DayOfWeek(d.year, d.mon, d.mday) == (4 + Days(d)) % 7
  {
    hide IsLeapYear;
    LeapCount(d.year);
    LeapsPositive(d.year);
    var pseudo := if d.mon < 2 then d.year - 1 else d.year;
    var x := pseudo + LeapYearsToEnd(pseudo) + Offset(d.mon) + d.mday;
    WeekdayMonth(d.mon);
    var k := MonthWeeks(d.mon) + 52 * d.year - 3652;
    assert 4 + Days(d) == x + k * 7;
    ModAddMultiple(x, k, 7);
    CModNat(x, 7);
  }

  lemma LeapsPositive(year: nat)
    ensures LeapYearsToEnd(year) >= 0 && LeapYearsToEnd(year - 1) >= 0
  {
  }

  /** Whole weeks in the offset of a month. */
  function MonthWeeks(mon: nat): int
    requires mon < 12
  {
    [0, 4, 8, 12, 17, 21, 25, 30, 34, 39, 43, 47][mon]
  }

  lemma WeekdayMonth(mon: nat)
    requires mon < 12
    ensures DaysToMonthStart(mon) == Offset(mon) + 7 * MonthWeeks(mon) - if mon < 2 then 1 else 0
  {
  }

  /** The formula of section 4.15 of POSIX:2008. */
  function PosixSeconds(sec: int, min: int, hour: int, yday: int, year: int): int {
    sec + min * 60 + hour * 3600 + yday * 86400 + (year - 70) * 31536000 + ((year - 69) / 4) * 86400 -
    ((year - 1) / 100) * 86400 + ((year + 299) / 400) * 86400
  }

  lemma IsPosix(d: Date, sec: int, min: int, hour: int)
    requires ValidDate(d) && d.year >= 70
    ensures 86400 * Days(d) + (hour * 60 + min) * 60 + sec == PosixSeconds(sec, min, hour, DayOfYear(d.year, d.mon, d.mday), d.year)
  {
    hide IsLeapYear;
    var y := d.year;
    assert (y - 69) / 4 == (y - 1) / 4 - 17;
    assert LeapYearsToEnd(y - 1) == (y - 1) / 4 - (y - 1) / 100 + (y + 299) / 400;
    assert Days(d) == DayOfYear(y, d.mon, d.mday) + 365 * (y - 70) + (y - 69) / 4 - (y - 1) / 100 + (y + 299) / 400;
  }

  /** Times of day on valid dates have different values. */
  lemma SecondsUnique(a: Date, s: nat, b: Date, t: nat)
    requires ValidDate(a) && ValidDate(b) && s < 86400 && t < 86400
    requires 86400 * Days(a) + s == 86400 * Days(b) + t
    ensures a == b && s == t
  {
    hide Days;
    LaterDates(a);
    LaterDates(b);
  }

  class Tm {
    var sec: int
    var min: int
    var hour: int
    var mday: nat
    var mon: nat
    var year: nat
    var wday: int
    var yday: int

    /** The weekday and the day of the year are filled in. */
    method Mktime() returns (seconds: int)
      requires ValidDate(Date(year, mon, mday))
      modifies this`wday, this`yday
      ensures seconds == 86400 * Days(Date(year, mon, mday)) + (hour * 60 + min) * 60 + sec
      ensures wday == (4 + Days(Date(year, mon, mday))) % 7
      ensures yday == Days(Date(year, mon, mday)) - Days(Date(year, 0, 1))
    {
      hide IsLeapYear, LeapYearsToEnd;
      yday := mday - 1 + DaysToMonthStart(mon);
      if mon >= 2 && IsLeapYear(year) {
        yday := yday + 1;
      }
      wday := DayOfWeek(year, mon, mday);
      Weekday(Date(year, mon, mday));
      var days := yday + 365 * year - 25567 + LeapYearsToEnd(year - 1);
      var secondsOfDay := (hour * 60 + min) * 60 + sec;
      seconds := days * 86400 + secondsOfDay;
    }
  }
}
