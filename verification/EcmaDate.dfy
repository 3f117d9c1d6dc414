/** The date arithmetic of ECMAScript `Date`, in UTC and in whole days (section 21.4.1 of ECMA-262).
    A date is its day number: day 0 is 1 January 1970. Months run from 0 to 11, weekdays from
    0 (Sunday) to 6 (Saturday), as `getMonth` and `getDay` report them. */
module EcmaDate {

  const SUNDAY := 0
  const MONDAY := 1
  const FRIDAY := 5
  const SATURDAY := 6

  /** The day number of 1 January of year y. */
  function DayFromYear(y: int): int {
    365 * (y - 1970) + (y - 1969) / 4 - (y - 1901) / 100 + (y - 1601) / 400
  }

  predicate IsLeapYear(y: int) {
    y % 4 == 0 && (y % 100 != 0 || y % 400 == 0)
  }

  function DaysInYear(y: int): int {
    if IsLeapYear(y) then 366 else 365
  }

  function WeekDay(n: int): int {
    (n + 4) % 7
  }

  predicate IsWeekday(n: int) {
    WeekDay(n) != SUNDAY && WeekDay(n) != SATURDAY
  }

  /** Days of the year before month m, where m == 12 stands for the end of the year. */
  function DaysBeforeMonth(leap: bool, m: int): int
    requires 0 <= m <= 12
  {
    (if m == 0 then 0 else if m == 1 then 31 else if m == 2 then 59 else if m == 3 then 90
     else if m == 4 then 120 else if m == 5 then 151 else if m == 6 then 181 else if m == 7 then 212
     else if m == 8 then 243 else if m == 9 then 273 else if m == 10 then 304 else if m == 11 then 334
     else 365) + if leap && 2 <= m then 1 else 0
  }

  function DaysInMonth(y: int, m: int): int
    requires 0 <= m < 12
  {
    DaysBeforeMonth(IsLeapYear(y), m + 1) - DaysBeforeMonth(IsLeapYear(y), m)
  }

  predicate ValidDate(y: int, m: int, d: int) {
    0 <= m < 12 && 1 <= d <= DaysInMonth(y, m)
  }

  /** MakeDay: out-of-range months and days spill into neighbouring years and months. */
  function MakeDay(y: int, m: int, d: int): int {
    var year := y + m / 12;
    DayFromYear(year) + DaysBeforeMonth(IsLeapYear(year), m % 12) + d - 1
  }

  /** The `Date` constructor reads the years 0 to 99 as 1900 to 1999. */
  function FullYear(y: int): int {
    if 0 <= y <= 99 then 1900 + y else y
  }

  /** `new Date(y, m, d)` */
  function NewDate(y: int, m: int, d: int): int {
    MakeDay(FullYear(y), m, d)
  }

  lemma YearLength(y: int)
    ensures DayFromYear(y + 1) == DayFromYear(y) + DaysInYear(y)
  {
    var q4, q100, q400 := y / 4, y / 100, y / 400;
    assert (y - 1968) / 4 == q4 - 492;
    assert (y - 1969) / 4 == (if y % 4 == 0 then q4 - 493 else q4 - 492);
    assert (y - 1900) / 100 == q100 - 19;
    assert (y - 1901) / 100 == (if y % 100 == 0 then q100 - 20 else q100 - 19);
    assert (y - 1600) / 400 == q400 - 4;
    assert (y - 1601) / 400 == (if y % 400 == 0 then q400 - 5 else q400 - 4);
  }

  /** Day 0 is a Thursday, 1 January 1970, and the weekdays follow each other round the week. */
  lemma WeekFromThursday(n: int)
    ensures MakeDay(1970, 0, 1) == 0 && WeekDay(0) == 4
    ensures WeekDay(n + 1) == if WeekDay(n) == 6 then 0 else WeekDay(n) + 1
  {
    FirstDay();
    hide MakeDay;
    var q, r := (n + 4) / 7, (n + 4) % 7;
    assert n + 5 == 7 * q + r + 1;
  }

  lemma FirstDay()
    ensures MakeDay(1970, 0, 1) == 0
  {
  }

  /** The lengths of the months in the Gregorian calendar. */
  lemma MonthLength(y: int, m: int)
    requires 0 <= m < 12
    ensures DaysInMonth(y, m) ==
            if m == 1 then (if (y % 4 == 0 && y % 100 != 0) || y % 400 == 0 then 29 else 28)
            else if m == 3 || m == 5 || m == 8 || m == 10 then 30 else 31
  {
  }

  /** The first of a month follows the last of the one before, over the end of the year too. */
  lemma MonthsFollow(y: int, m: int)
    requires 0 <= m < 12
    ensures MakeDay(y, m, DaysInMonth(y, m)) + 1 == if m == 11 then MakeDay(y + 1, 0, 1) else MakeDay(y, m + 1, 1)
  {
    hide DayFromYear, IsLeapYear, DaysInYear, MakeDay, DaysInMonth, DaysBeforeMonth;
    YearLength(y);
    YearEnds(y);
    MonthAdds(y, m);
    InMonth(y, m, DaysInMonth(y, m));
    if m == 11 {
      InMonth(y + 1, 0, 1);
    } else {
      InMonth(y, m + 1, 1);
    }
  }

  lemma YearEnds(y: int)
    ensures DaysInYear(y) == DaysBeforeMonth(IsLeapYear(y), 12) && DaysBeforeMonth(IsLeapYear(y + 1), 0) == 0
  {
    hide IsLeapYear;
  }

  lemma MonthAdds(y: int, m: int)
    requires 0 <= m < 12
    ensures DaysBeforeMonth(IsLeapYear(y), m) + DaysInMonth(y, m) == DaysBeforeMonth(IsLeapYear(y), m + 1)
  {
    hide IsLeapYear, DaysBeforeMonth;
  }

  lemma InMonth(y: int, m: int, d: int)
    requires 0 <= m < 12
    ensures MakeDay(y, m, d) == DayFromYear(y) + DaysBeforeMonth(IsLeapYear(y), m) + d - 1
  {
    hide IsLeapYear, DaysBeforeMonth, DayFromYear;
    assert y + m / 12 == y && m % 12 == m;
  }

  lemma {:induction false} YearsInOrder(y: int, z: int)
    requires y <= z
    ensures DayFromYear(y) + 365 * (z - y) <= DayFromYear(z)
    decreases z - y
  {
    if y < z {
      YearLength(y);
      YearsInOrder(y + 1, z);
    }
  }

  lemma YearsAscend(y: int)
    ensures DayFromYear(y - 1) < DayFromYear(y) < DayFromYear(y + 1) < DayFromYear(y + 2)
  {
    hide DayFromYear;
    YearLength(y - 1);
    YearLength(y);
    YearLength(y + 1);
  }

  /** The year that day n falls in, searched for from year y. */
  function YearFrom(n: int, y: int): (r: int)
    ensures DayFromYear(r) <= n < DayFromYear(r + 1)
    decreases if n < DayFromYear(y) then DayFromYear(y) - n
              else if n < DayFromYear(y + 1) then 0
              else n - DayFromYear(y + 1) + 1
  {
    YearsAscend(y);
    if n < DayFromYear(y) then YearFrom(n, y - 1)
    else if n < DayFromYear(y + 1) then y
    else YearFrom(n, y + 1)
  }

  /** `getFullYear` */
  function YearOf(n: int): (y: int)
    ensures DayFromYear(y) <= n < DayFromYear(y + 1)
  {
    YearFrom(n, 1970)
  }

  lemma YearOfUnique(n: int, y: int)
    requires DayFromYear(y) <= n < DayFromYear(y + 1)
    ensures YearOf(n) == y
  {
    if YearOf(n) < y {
      YearsInOrder(YearOf(n) + 1, y);
    } else if y < YearOf(n) {
      YearsInOrder(y + 1, YearOf(n));
    }
  }

  /** `getMonth` */
  function MonthOf(n: int): (m: int)
    ensures 0 <= m < 12
    ensures var leap := IsLeapYear(YearOf(n));
            DaysBeforeMonth(leap, m) <= n - DayFromYear(YearOf(n)) < DaysBeforeMonth(leap, m + 1)
  {
    YearLength(YearOf(n));
    var k := n - DayFromYear(YearOf(n));
    var leap := IsLeapYear(YearOf(n));
    if k < DaysBeforeMonth(leap, 1) then 0 else if k < DaysBeforeMonth(leap, 2) then 1
    else if k < DaysBeforeMonth(leap, 3) then 2 else if k < DaysBeforeMonth(leap, 4) then 3
    else if k < DaysBeforeMonth(leap, 5) then 4 else if k < DaysBeforeMonth(leap, 6) then 5
    else if k < DaysBeforeMonth(leap, 7) then 6 else if k < DaysBeforeMonth(leap, 8) then 7
    else if k < DaysBeforeMonth(leap, 9) then 8 else if k < DaysBeforeMonth(leap, 10) then 9
    else if k < DaysBeforeMonth(leap, 11) then 10 else 11
  }

  /** `getDate` */
  function DateOf(n: int): (d: int)
    ensures 1 <= d <= DaysInMonth(YearOf(n), MonthOf(n))
  {
    n - DayFromYear(YearOf(n)) - DaysBeforeMonth(IsLeapYear(YearOf(n)), MonthOf(n)) + 1
  }

  /** `setDate`: the month and year of day n with its day of the month replaced by d. */
  function SetDate(n: int, d: int): int {
    MakeDay(YearOf(n), MonthOf(n), d)
  }

  /** `setFullYear` */
  function SetFullYear(n: int, y: int): int {
    MakeDay(y, MonthOf(n), DateOf(n))
  }

  /** Splitting a day into year, month and day and putting it together again gives the same day. */
  lemma PartsMakeDay(n: int)
    ensures ValidDate(YearOf(n), MonthOf(n), DateOf(n))
    ensures MakeDay(YearOf(n), MonthOf(n), DateOf(n)) == n
  {
    hide DayFromYear, IsLeapYear, DaysBeforeMonth, YearOf, MonthOf;
  }

  lemma MonthsInOrder(leap: bool, m: int, k: int)
    requires 0 <= m < k <= 12
    ensures DaysBeforeMonth(leap, m) < DaysBeforeMonth(leap, k)
  {
  }

  /** Every valid date is read back from its day number. */
  lemma MakeDayParts(y: int, m: int, d: int)
    requires ValidDate(y, m, d)
    ensures var n := MakeDay(y, m, d); YearOf(n) == y && MonthOf(n) == m && DateOf(n) == d
  {
    var n, leap := MakeDay(y, m, d), IsLeapYear(y);
    YearLength(y);
    assert y + m / 12 == y && m % 12 == m;
    assert 0 <= DaysBeforeMonth(leap, m) && DaysBeforeMonth(leap, m + 1) <= DaysInYear(y);
    YearOfUnique(n, y);
    var k := MonthOf(n);
    if k < m {
      if k + 1 < m { MonthsInOrder(leap, k + 1, m); }
    } else if m < k {
      if m + 1 < k { MonthsInOrder(leap, m + 1, k); }
    }
  }

  /** `date.setDate(date.getDate() + k)` moves by exactly k days, across month and year ends. */
  lemma SetDateMovesByDays(n: int, k: int)
    ensures SetDate(n, DateOf(n) + k) == n + k
  {
    hide DayFromYear, IsLeapYear, DaysBeforeMonth, YearOf, MonthOf, DateOf;
    PartsMakeDay(n);
  }
}
