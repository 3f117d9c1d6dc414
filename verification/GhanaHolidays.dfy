/** The Ghana public-holiday calendar, and what Easter Sunday has to be. */
module GhanaHolidays {
  import opened EcmaDate

  /** The days of a year's public holidays, as the name and the parts of the date string. */
  datatype HolidayName =
    | NewYearsDay | ConstitutionDay | IndependenceDay | GoodFriday | HolySaturday | EasterMonday | MayDay
    | AfricaUnionDay | RepublicDay | FoundersDay | KwameNkrumahMemorialDay | FarmersDay | ChristmasDay | BoxingDay

  datatype Holiday = Holiday(name: HolidayName, year: int, month: int, day: int)

  // ---- Easter by the Anonymous Gregorian algorithm ----

  /** The algorithm's `h`: days from 21 March to the full moon, before the epact correction. */
  function MoonOffset(year: nat): int {
    var a := year % 19;
    var b := year / 100;
    var d := b / 4;
    var f := (b + 8) / 25;
    var g := (b - f + 1) / 3;
    (19 * a + b - d - g + 15) % 30
  }

  /** The algorithm's `l`. */
  function SundayOffset(year: nat): int {
    var c := year % 100;
    var e := year / 100 % 4;
    var i := c / 4;
    var k := c % 4;
    (32 + 2 * e + 2 * i - MoonOffset(year) - k) % 7
  }

  /** The algorithm's `m`. */
  function LateCorrection(year: nat): int {
    (year % 19 + 11 * MoonOffset(year) + 22 * SundayOffset(year)) / 451
  }

  /** Month (1 to 12) and day of the month of Easter, as the algorithm yields them. */
  function EasterParts(year: nat): (int, int) {
    var p := MoonOffset(year) + SundayOffset(year) - 7 * LateCorrection(year) + 114;
    (p / 31, p % 31 + 1)
  }

  function GetEaster(year: nat): int {
    var (month, day) := EasterParts(year);
    NewDate(year, month - 1, day)
  }

  function GetGoodFriday(year: nat): int {
    var easter := GetEaster(year);
    SetDate(easter, DateOf(easter) - 2)
  }

  function GetHolySaturday(year: nat): int {
    var easter := GetEaster(year);
    SetDate(easter, DateOf(easter) - 1)
  }

  function GetEasterMonday(year: nat): int {
    var easter := GetEaster(year);
    SetDate(easter, DateOf(easter) + 1)
  }

  // ---- The rule for Easter, stated independently: Clavius' computus of 1582 ----

  /** The Gregorian epact, with the correction that keeps it distinct within a lunar cycle
      (D. E. Knuth, The Art of Computer Programming, volume 1, section 1.3.2, exercise 14). */
  function Epact(year: nat): int {
    var golden := year % 19 + 1;
    var century := year / 100 + 1;
    var solar := 3 * century / 4 - 12;
    var lunar := (8 * century + 5) / 25 - 5;
    var e := (11 * golden + 20 + lunar - solar) % 30;
    if e == 24 || (e == 25 && golden > 11) then e + 1 else e
  }

  /** The ecclesiastical full moon, as a day of March that may run on into April. */
  function FullMoonMarchDay(year: nat): int {
    var n := 44 - Epact(year);
    if n < 21 then n + 30 else n
  }

  function PaschalFullMoon(year: nat): int {
    MakeDay(year, 2, FullMoonMarchDay(year))
  }

  ghost predicate FirstSundayAfter(sunday: int, n: int) {
    n < sunday && WeekDay(sunday) == SUNDAY &&
    forall k :: n < k < sunday ==> WeekDay(k) != SUNDAY
  }

  // ---- What the algorithm computes ----

  lemma OffsetBounds(year: nat)
    ensures 0 <= MoonOffset(year) <= 29 && 0 <= SundayOffset(year) <= 6
    ensures LateCorrection(year) ==
            if SundayOffset(year) == 6 &&
               (MoonOffset(year) == 29 || (MoonOffset(year) == 28 && year % 19 > 10)) then 1 else 0
    ensures 0 <= MoonOffset(year) + SundayOffset(year) - 7 * LateCorrection(year) <= 34
  {
    var a, h, l := year % 19, MoonOffset(year), SundayOffset(year);
    assert 0 <= a + 11 * h + 22 * l < 902;
    if h <= 27 {
      assert a + 11 * h + 22 * l <= 18 + 297 + 132;
    }
  }

  /** Easter is the March day 22 + h + l - 7m, running on into April. */
  lemma EasterMarchDay(year: nat)
    ensures var (month, day) := EasterParts(year);
            var p := 22 + MoonOffset(year) + SundayOffset(year) - 7 * LateCorrection(year);
            && 22 <= p <= 56
            && (month == 3 || month == 4)
            && ValidDate(year, month - 1, day)
            && MakeDay(year, month - 1, day) == MakeDay(year, 2, p)
            && (month == 3 ==> 22 <= day) && (month == 4 ==> day <= 25)
  {
    OffsetBounds(year);
    hide MoonOffset, SundayOffset, LateCorrection, DayFromYear, IsLeapYear;
    var p := 22 + MoonOffset(year) + SundayOffset(year) - 7 * LateCorrection(year);
    assert p + 92 < 124 <==> p <= 31;
  }

  /** Moving from 21 March by h + 1 + l days always lands on a Sunday. */
  lemma OffsetsReachSunday(year: nat)
    ensures WeekDay(MakeDay(year, 2, 22 + MoonOffset(year) + SundayOffset(year))) == SUNDAY
  {
    hide MoonOffset, MakeDay;
    var b, c := year / 100, year % 100;
    MarchFirst(year);
    MarchDays(year, 22 + MoonOffset(year) + SundayOffset(year));
    SundayArithmetic(b / 4, b % 4, c / 4, c % 4, MoonOffset(year));
  }

  lemma SundayArithmetic(d: int, e: int, i: int, k: int, h: int)
    ensures (146097 * d + 36524 * e + 1461 * i + 365 * k - 719468
             + 21 + h + (32 + 2 * e + 2 * i - h - k) % 7 + 4) % 7 == 0
  {
    var x := 32 + 2 * e + 2 * i - h - k;
    var weeks := 20871 * d + 5218 * e + 209 * i + 52 * k - 102773 - x / 7;
    MultipleOf(weeks, 7);
    assert x % 7 == x - 7 * (x / 7);
  }

  lemma MultipleOf(t: int, m: int)
    requires m == 7 || m == 30
    ensures (m * t) % m == 0
  {
  }

  /** The day number of 1 March, from the digits of the year. */
  lemma MarchFirst(year: nat)
    ensures var b, c := year / 100, year % 100;
            MakeDay(year, 2, 1) == 146097 * (b / 4) + 36524 * (b % 4) + 1461 * (c / 4) + 365 * (c % 4) - 719468
  {
    var b, c := year / 100, year % 100;
    var d, e, i, k := b / 4, b % 4, c / 4, c % 4;
    assert year == 400 * d + 100 * e + 4 * i + k;
    YearLength(year);
    assert (year + 1 - 1969) / 4 == 100 * d + 25 * e + i - 492;
    assert (year + 1 - 1901) / 100 == 4 * d + e - 19;
    assert (year + 1 - 1601) / 400 == d - 4;
  }

  /** The algorithm's own full moon, 21 March + h less its correction, is the computus full moon. */
  lemma MoonOffsetIsFullMoon(year: nat)
    ensures var h := MoonOffset(year);
            FullMoonMarchDay(year) ==
            21 + h - (if h == 29 || (h == 28 && year % 19 > 10) then 1 else 0)
  {
    var a, b := year % 19, year / 100;
    var g := (b - (b + 8) / 25 + 1) / 3;
    LunarCorrection(b);
    SolarCorrection(b);
    ComplementModulo30(11 * (a + 1) + 20 + (g - 5) - (b - b / 4 - 12), 19 * a + b - b / 4 - g + 15, a + 1);
  }

  lemma ComplementModulo30(x: int, y: int, t: int)
    requires x + y == 30 * t + 23
    ensures x % 30 + y % 30 == 23 || x % 30 + y % 30 == 53
  {
    assert x % 30 + y % 30 - 23 == 30 * (t - x / 30 - y / 30);
  }

  lemma SolarCorrection(b: nat)
    ensures 3 * (b + 1) / 4 == b - b / 4
  {
  }

  /** The two ways of counting the moon's eight corrections in 2500 years agree. */
  lemma LunarCorrection(b: nat)
    ensures (b - (b + 8) / 25 + 1) / 3 == (8 * b + 13) / 25
  {
    var q, r := b / 25, b % 25;
    assert (b + 8) / 25 == q + (if r >= 17 then 1 else 0);
    assert (8 * b + 13) / 25 == 8 * q + (8 * r + 13) / 25;
  }

  lemma SundayWithinAWeek(s: int, n: int)
    requires WeekDay(s) == SUNDAY && n < s <= n + 7
    ensures FirstSundayAfter(s, n)
  {
  }

  lemma WeekBefore(n: int, weeks: int)
    ensures WeekDay(n - 7 * weeks) == WeekDay(n)
  {
    assert (n - 7 * weeks + 4) % 7 == (n + 4) % 7 by { MultipleOf(weeks, 7); }
  }

  lemma MarchDays(year: int, d: int)
    ensures MakeDay(year, 2, d) == MakeDay(year, 2, 1) + d - 1
  {
  }

  /** For every Gregorian year the algorithm's month and day are the first Sunday strictly after the
      ecclesiastical full moon. */
  lemma EasterFollowsFullMoon(year: nat)
    ensures var (month, day) := EasterParts(year);
            FirstSundayAfter(MakeDay(year, month - 1, day), PaschalFullMoon(year))
  {
    hide MoonOffset, SundayOffset, LateCorrection, EasterParts, FullMoonMarchDay, MakeDay, WeekDay, FirstSundayAfter;
    var h, l, m := MoonOffset(year), SundayOffset(year), LateCorrection(year);
    OffsetBounds(year);
    EasterMarchDay(year);
    OffsetsReachSunday(year);
    MoonOffsetIsFullMoon(year);
    MarchDays(year, 22 + h + l);
    MarchDays(year, 22 + h + l - 7 * m);
    MarchDays(year, FullMoonMarchDay(year));
    WeekBefore(MakeDay(year, 2, 22 + h + l), m);
    SundayWithinAWeek(MakeDay(year, 2, 22 + h + l - 7 * m), PaschalFullMoon(year));
  }

  /** There is only one such Sunday, so the rule determines the date. */
  lemma FirstSundayUnique(s: int, t: int, n: int)
    requires FirstSundayAfter(s, n) && FirstSundayAfter(t, n)
    ensures s == t
  {
  }

  /** `new Date` moves the years 0 to 99 to 1900 to 1999, where the same date is one weekday later. */
  lemma TwoDigitYears(year: nat)
    requires year <= 99
    ensures var (month, day) := EasterParts(year);
            GetEaster(year) == MakeDay(year, month - 1, day) + 693960
  {
    hide MoonOffset, SundayOffset, LateCorrection, EasterParts;
    EasterMarchDay(year);
    hide MakeDay;
    var (month, day) := EasterParts(year);
    CenturyShift(year, month - 1, day);
  }

  lemma CenturyShift(year: nat, m: int, d: int)
    requires year <= 99 && (m == 2 || m == 3)
    ensures MakeDay(1900 + year, m, d) == MakeDay(year, m, d) + 693960
  {
    hide MakeDay;
    MarchFirst(year);
    MarchFirst(1900 + year);
    assert (1900 + year) / 100 == 19 && (1900 + year) % 100 == year;
    MarchToApril(year, m, d);
    MarchToApril(1900 + year, m, d);
  }

  lemma MarchToApril(year: int, m: int, d: int)
    requires m == 2 || m == 3
    ensures MakeDay(year, m, d) == MakeDay(year, 2, 1) + d - 1 + if m == 3 then 31 else 0
  {
  }

  /** The date `getEaster` returns is Easter of its year exactly when the year has three digits or more. */
  lemma GetEasterIsEaster(year: nat)
    ensures FirstSundayAfter(GetEaster(year), PaschalFullMoon(year)) <==> year >= 100
    ensures WeekDay(GetEaster(year)) == SUNDAY <==> year >= 100
    ensures year < 100 ==> WeekDay(GetEaster(year)) == MONDAY
  {
    hide MoonOffset, SundayOffset, LateCorrection, EasterParts, FullMoonMarchDay, MakeDay, FirstSundayAfter, WeekDay;
    EasterFollowsFullMoon(year);
    var (month, day) := EasterParts(year);
    SundayIsFirst(MakeDay(year, month - 1, day), PaschalFullMoon(year));
    if year < 100 {
      TwoDigitYears(year);
      DayAfterSunday(MakeDay(year, month - 1, day));
      MondayIsNotFirst(GetEaster(year), PaschalFullMoon(year));
    }
  }

  lemma SundayIsFirst(s: int, n: int)
    requires FirstSundayAfter(s, n)
    ensures WeekDay(s) == SUNDAY
  {
  }

  lemma MondayIsNotFirst(s: int, n: int)
    requires WeekDay(s) == MONDAY
    ensures !FirstSundayAfter(s, n)
  {
  }

  lemma DayAfterSunday(n: int)
    requires WeekDay(n) == SUNDAY
    ensures WeekDay(n + 693960) == MONDAY
  {
    WeekBefore(n + 693960, 99137);
  }

  /** Easter lies in its own year, from 22 March to 25 April. */
  lemma EasterWindow(year: nat)
    requires year >= 100
    ensures var n := GetEaster(year);
            && YearOf(n) == year
            && ((MonthOf(n) == 2 && 22 <= DateOf(n)) || (MonthOf(n) == 3 && DateOf(n) <= 25))
            && MakeDay(year, 2, 22) <= n <= MakeDay(year, 3, 25)
  {
    hide MoonOffset, SundayOffset, LateCorrection, EasterParts, MakeDay, YearOf, MonthOf, DateOf;
    EasterMarchDay(year);
    var (month, day) := EasterParts(year);
    MakeDayParts(year, month - 1, day);
    MarchToApril(year, month - 1, day);
    MarchToApril(year, 2, 22);
    MarchToApril(year, 3, 25);
  }

  /** The derived days are the Friday, the Saturday and the Monday around Easter. */
  lemma EasterDays(year: nat)
    requires year >= 100
    ensures GetGoodFriday(year) == GetEaster(year) - 2 && WeekDay(GetGoodFriday(year)) == FRIDAY
    ensures GetHolySaturday(year) == GetEaster(year) - 1 && WeekDay(GetHolySaturday(year)) == SATURDAY
    ensures GetEasterMonday(year) == GetEaster(year) + 1 && WeekDay(GetEasterMonday(year)) == MONDAY
  {
    hide GetEaster, SetDate, WeekDay, FirstSundayAfter, PaschalFullMoon;
    hide DayFromYear, IsLeapYear, DaysBeforeMonth, DaysInMonth, YearOf, MonthOf, DateOf;
    var easter := GetEaster(year);
    GetEasterIsEaster(year);
    WeekdaysAround(easter);
    SetDateMovesByDays(easter, -2);
    SetDateMovesByDays(easter, -1);
    SetDateMovesByDays(easter, 1);
  }

  /** They stay in March or April of the same year, also where the shift crosses the end of March. */
  lemma EasterDaysInSpring(year: nat, n: int)
    requires year >= 100 && GetGoodFriday(year) <= n <= GetEasterMonday(year)
    ensures YearOf(n) == year && (MonthOf(n) == 2 || MonthOf(n) == 3)
  {
    hide GetEaster, GetGoodFriday, GetEasterMonday, MakeDay;
    EasterDays(year);
    EasterWindow(year);
    MarchToApril(year, 2, 22);
    MarchToApril(year, 3, 25);
    MarchToApril(year, 3, 30);
    InMarchOrApril(year, n);
  }

  lemma WeekdaysAround(n: int)
    requires WeekDay(n) == SUNDAY
    ensures WeekDay(n - 2) == FRIDAY && WeekDay(n - 1) == SATURDAY && WeekDay(n + 1) == MONDAY
  {
  }

  lemma InMarchOrApril(year: int, n: int)
    requires MakeDay(year, 2, 1) <= n <= MakeDay(year, 3, 30)
    ensures YearOf(n) == year && (MonthOf(n) == 2 || MonthOf(n) == 3)
  {
    hide MakeDay, YearOf, MonthOf, DateOf;
    var k := n - MakeDay(year, 2, 1);
    MarchToApril(year, 3, 30);
    if k < 31 {
      MarchDays(year, k + 1);
      MakeDayParts(year, 2, k + 1);
    } else {
      MarchToApril(year, 3, k - 30);
      MakeDayParts(year, 3, k - 30);
    }
  }

  // ---- Farmers Day and the year list ----

  ghost predicate IsFirstFriday(n: int, from: int) {
    from <= n && WeekDay(n) == FRIDAY && forall k :: from <= k < n ==> WeekDay(k) != FRIDAY
  }

  function FirstFriday(from: int): (n: int)
    ensures IsFirstFriday(n, from) && n <= from + 6
  {
    from + (FRIDAY - WeekDay(from)) % 7
  }

  /** The first Friday of December. */
  method GetFarmersDay(year: nat) returns (date: int)
    ensures IsFirstFriday(date, NewDate(year, 11, 1))
    ensures date == FirstFriday(NewDate(year, 11, 1))
    ensures MonthOf(date) == 11 && DateOf(date) <= 7
  {
    hide NewDate, SetDate, YearOf, MonthOf, DateOf;
    date := NewDate(year, 11, 1);
    ghost var from := date;
    while WeekDay(date) != FRIDAY
      invariant from <= date <= FirstFriday(from)
      invariant forall k :: from <= k < date ==> WeekDay(k) != FRIDAY
      decreases FirstFriday(from) - date
    {
      SetDateMovesByDays(date, 1);
      date := SetDate(date, DateOf(date) + 1);
    }
    DecemberDays(year, date - from + 1);
  }

  /** `toISOString().slice(0, 10)` */
  function OfDate(name: HolidayName, n: int): Holiday {
    Holiday(name, YearOf(n), MonthOf(n) + 1, DateOf(n))
  }

  function GetHolidaysForYear(year: nat): seq<Holiday> {
    [ Holiday(NewYearsDay, year, 1, 1),
      Holiday(ConstitutionDay, year, 1, 7),
      Holiday(IndependenceDay, year, 3, 6),
      OfDate(GoodFriday, GetGoodFriday(year)),
      OfDate(HolySaturday, GetHolySaturday(year)),
      OfDate(EasterMonday, GetEasterMonday(year)),
      Holiday(MayDay, year, 5, 1),
      Holiday(AfricaUnionDay, year, 5, 25),
      Holiday(RepublicDay, year, 7, 1),
      Holiday(FoundersDay, year, 8, 4),
      Holiday(KwameNkrumahMemorialDay, year, 9, 21),
      OfDate(FarmersDay, FirstFriday(NewDate(year, 11, 1))),
      Holiday(ChristmasDay, year, 12, 25),
      Holiday(BoxingDay, year, 12, 26) ]
  }

  function InMonth(holidays: seq<Holiday>, month: int): seq<Holiday> {
    if holidays == [] then []
    else (if holidays[0].month == month then [holidays[0]] else []) + InMonth(holidays[1..], month)
  }

  function GetForMonth(month: int, year: nat): seq<Holiday> {
    InMonth(GetHolidaysForYear(year), month)
  }

  function DayOfHoliday(h: Holiday): int {
    MakeDay(h.year, h.month - 1, h.day)
  }

  /** From year 100 on, the list holds fourteen valid dates of the year itself, in strict calendar
      order: however Easter falls, no two holidays share a day. */
  lemma HolidaysInCalendarOrder(year: nat)
    requires year >= 100
    ensures forall h <- GetHolidaysForYear(year) :: h.year == year && ValidDate(year, h.month - 1, h.day)
    ensures var hs := GetHolidaysForYear(year);
            |hs| == 14 && forall i, j :: 0 <= i < j < |hs| ==> DayOfHoliday(hs[i]) < DayOfHoliday(hs[j])
  {
    hide GetHolidaysForYear, ValidDate, DayOfHoliday;
    HolidaysValid(year);
    var hs := GetHolidaysForYear(year);
    forall i | 0 <= i < |hs| - 1
      ensures DayOfHoliday(hs[i]) < DayOfHoliday(hs[i + 1])
    {
      NextHoliday(year, i);
    }
    ConsecutiveOrder(hs);
  }

  lemma HolidaysValid(year: nat)
    requires year >= 100
    ensures |GetHolidaysForYear(year)| == 14
    ensures forall h <- GetHolidaysForYear(year) :: h.year == year && ValidDate(year, h.month - 1, h.day)
  {
    hide GetGoodFriday, GetHolySaturday, GetEasterMonday, MakeDay, YearOf, MonthOf, DateOf, DaysInMonth, FirstFriday;
    MonthLengths(year);
    VariableHolidays(year);
    FarmersDayInDecember(year);
  }

  /** But for the days around Easter, month and day alone put consecutive entries in order. */
  lemma PartsInOrder(year: nat, i: nat)
    requires year >= 100 && i < 13 && i != 3 && i != 4
    ensures var hs := GetHolidaysForYear(year);
            && |hs| == 14
            && (hs[i].month < hs[i + 1].month || (hs[i].month == hs[i + 1].month && hs[i].day < hs[i + 1].day))
  {
    hide GetGoodFriday, GetHolySaturday, GetEasterMonday, FirstFriday, YearOf, MonthOf, DateOf, MakeDay, DaysInMonth;
    VariableHolidays(year);
    FarmersDayInDecember(year);
  }

  lemma AroundEasterInOrder(year: nat)
    requires year >= 100
    ensures var hs := GetHolidaysForYear(year);
            |hs| == 14 && DayOfHoliday(hs[3]) < DayOfHoliday(hs[4]) < DayOfHoliday(hs[5])
  {
    hide GetGoodFriday, GetHolySaturday, GetEasterMonday, DayOfHoliday, FirstFriday, OfDate, GetEaster;
    VariableHolidays(year);
  }

  lemma NextHoliday(year: nat, i: nat)
    requires year >= 100 && i < 13
    ensures var hs := GetHolidaysForYear(year);
            |hs| == 14 && DayOfHoliday(hs[i]) < DayOfHoliday(hs[i + 1])
  {
    hide GetHolidaysForYear, ValidDate, MakeDay;
    var hs := GetHolidaysForYear(year);
    HolidaysValid(year);
    if i == 3 || i == 4 {
      AroundEasterInOrder(year);
    } else {
      PartsInOrder(year, i);
      assert hs[i] in hs && hs[i + 1] in hs;
      CalendarOrder(year, hs[i].month - 1, hs[i].day, hs[i + 1].month - 1, hs[i + 1].day);
    }
  }

  lemma {:induction false} ConsecutiveOrder(hs: seq<Holiday>)
    requires forall i :: 0 <= i < |hs| - 1 ==> DayOfHoliday(hs[i]) < DayOfHoliday(hs[i + 1])
    ensures forall i, j :: 0 <= i < j < |hs| ==> DayOfHoliday(hs[i]) < DayOfHoliday(hs[j])
  {
    if |hs| >= 2 {
      var rest := hs[..|hs| - 1];
      ConsecutiveOrder(rest);
      forall i, j | 0 <= i < j < |hs|
        ensures DayOfHoliday(hs[i]) < DayOfHoliday(hs[j])
      {
        if j == |hs| - 1 && i < j - 1 {
          assert DayOfHoliday(rest[i]) < DayOfHoliday(rest[j - 1]);
        } else if j < |hs| - 1 {
          assert DayOfHoliday(rest[i]) < DayOfHoliday(rest[j]);
        }
      }
    }
  }

  lemma MonthLengths(year: int)
    ensures forall m :: 0 <= m < 12 ==> 28 <= DaysInMonth(year, m) <= 31
    ensures DaysInMonth(year, 11) == 31
  {
  }

  lemma CalendarOrder(year: int, m: int, d: int, m': int, d': int)
    requires ValidDate(year, m, d) && ValidDate(year, m', d')
    requires m < m' || (m == m' && d < d')
    ensures MakeDay(year, m, d) < MakeDay(year, m', d')
  {
    hide DayFromYear, IsLeapYear;
    if m + 1 < m' {
      MonthsInOrder(IsLeapYear(year), m + 1, m');
    }
  }

  lemma VariableHolidays(year: nat)
    requires year >= 100
    ensures forall h <- [OfDate(GoodFriday, GetGoodFriday(year)), OfDate(HolySaturday, GetHolySaturday(year)),
                         OfDate(EasterMonday, GetEasterMonday(year))] ::
              h.year == year && ValidDate(year, h.month - 1, h.day) && ((h.month == 3 && 7 <= h.day) || h.month == 4)
    ensures DayOfHoliday(OfDate(GoodFriday, GetGoodFriday(year))) == GetEaster(year) - 2
    ensures DayOfHoliday(OfDate(HolySaturday, GetHolySaturday(year))) == GetEaster(year) - 1
    ensures DayOfHoliday(OfDate(EasterMonday, GetEasterMonday(year))) == GetEaster(year) + 1
  {
    hide GetEaster, GetGoodFriday, GetHolySaturday, GetEasterMonday, MakeDay, YearOf, MonthOf, DateOf;
    EasterDays(year);
    SpringDate(year, GetGoodFriday(year));
    SpringDate(year, GetHolySaturday(year));
    SpringDate(year, GetEasterMonday(year));
  }

  lemma FarmersDayInDecember(year: nat)
    requires year >= 100
    ensures var n := FirstFriday(NewDate(year, 11, 1));
            YearOf(n) == year && MonthOf(n) == 11 && DateOf(n) <= 7 && ValidDate(year, 11, DateOf(n))
  {
    DecemberDays(year, FirstFriday(NewDate(year, 11, 1)) - NewDate(year, 11, 1) + 1);
  }

  lemma DecemberDays(year: int, d: int)
    requires 1 <= d <= 31
    ensures var n := NewDate(year, 11, 1) + d - 1;
            YearOf(n) == FullYear(year) && MonthOf(n) == 11 && DateOf(n) == d && ValidDate(FullYear(year), 11, d)
  {
    hide DayFromYear, IsLeapYear, YearOf, MonthOf, DateOf;
    MakeDayParts(FullYear(year), 11, d);
  }

  lemma SpringDate(year: nat, n: int)
    requires year >= 100 && GetGoodFriday(year) <= n <= GetEasterMonday(year)
    ensures YearOf(n) == year && ValidDate(year, MonthOf(n), DateOf(n)) && MakeDay(year, MonthOf(n), DateOf(n)) == n
    ensures (MonthOf(n) == 2 && 20 <= DateOf(n)) || MonthOf(n) == 3
  {
    hide GetEaster, GetGoodFriday, GetEasterMonday;
    EasterDays(year);
    EasterWindow(year);
    EasterDaysInSpring(year, n);
    PartsMakeDay(n);
  }

  /** When the holiday of a name is kept: on a fixed day, around Easter, or on the first Friday of December. */
  ghost predicate Observed(h: Holiday)
    requires h.year >= 0
  {
    match h.name
    case NewYearsDay => h.month == 1 && h.day == 1
    case ConstitutionDay => h.month == 1 && h.day == 7
    case IndependenceDay => h.month == 3 && h.day == 6
    case GoodFriday => FirstSundayAfter(DayOfHoliday(h) + 2, PaschalFullMoon(h.year))
    case HolySaturday => FirstSundayAfter(DayOfHoliday(h) + 1, PaschalFullMoon(h.year))
    case EasterMonday => FirstSundayAfter(DayOfHoliday(h) - 1, PaschalFullMoon(h.year))
    case MayDay => h.month == 5 && h.day == 1
    case AfricaUnionDay => h.month == 5 && h.day == 25
    case RepublicDay => h.month == 7 && h.day == 1
    case FoundersDay => h.month == 8 && h.day == 4
    case KwameNkrumahMemorialDay => h.month == 9 && h.day == 21
    case FarmersDay => h.month == 12 && h.day <= 7 && WeekDay(DayOfHoliday(h)) == FRIDAY
    case ChristmasDay => h.month == 12 && h.day == 25
    case BoxingDay => h.month == 12 && h.day == 26
  }

  /** From year 100 on, the list holds exactly the holidays as they are kept, each name once. */
  lemma HolidaysAreKept(year: nat, h: Holiday)
    requires year >= 100
    ensures h in GetHolidaysForYear(year) <==>
            h.year == year && ValidDate(year, h.month - 1, h.day) && Observed(h)
    ensures var hs := GetHolidaysForYear(year);
            |hs| == 14 && forall i, j :: 0 <= i < j < |hs| ==> hs[i].name != hs[j].name
  {
    hide GetGoodFriday, GetHolySaturday, GetEasterMonday, FirstFriday, NewDate, OfDate;
    hide DayOfHoliday, FirstSundayAfter, PaschalFullMoon, WeekDay, ValidDate;
    NamesOnce(year);
    HolidaysValid(year);
    if h.year == year && ValidDate(year, h.month - 1, h.day) {
      KeptAroundEaster(year, h);
      KeptInDecember(year, h);
    }
    ListedByName(year, h);
    hide GetHolidaysForYear;
  }

  lemma NamesOnce(year: nat)
    ensures var hs := GetHolidaysForYear(year);
            |hs| == 14 && forall i, j :: 0 <= i < j < |hs| ==> hs[i].name != hs[j].name
  {
    hide GetGoodFriday, GetHolySaturday, GetEasterMonday, FirstFriday, NewDate, YearOf, MonthOf, DateOf;
  }

  /** The entry of each name. */
  lemma ListedByName(year: nat, h: Holiday)
    ensures h in GetHolidaysForYear(year) <==>
            match h.name
            case GoodFriday => h == OfDate(GoodFriday, GetGoodFriday(year))
            case HolySaturday => h == OfDate(HolySaturday, GetHolySaturday(year))
            case EasterMonday => h == OfDate(EasterMonday, GetEasterMonday(year))
            case FarmersDay => h == OfDate(FarmersDay, FirstFriday(NewDate(year, 11, 1)))
            case _ => h.year == year && Observed(h.(year := 0))
  {
    hide GetGoodFriday, GetHolySaturday, GetEasterMonday, FirstFriday, NewDate, YearOf, MonthOf, DateOf;
    hide DayOfHoliday, FirstSundayAfter, PaschalFullMoon, WeekDay;
  }

  lemma IsTheDate(name: HolidayName, h: Holiday, n: int)
    requires h.name == name && ValidDate(h.year, h.month - 1, h.day)
    requires YearOf(n) == h.year && ValidDate(h.year, MonthOf(n), DateOf(n))
    requires MakeDay(h.year, MonthOf(n), DateOf(n)) == n
    ensures h == OfDate(name, n) <==> DayOfHoliday(h) == n
  {
    hide DayFromYear, IsLeapYear, DaysBeforeMonth, DaysInMonth, YearOf, MonthOf, DateOf;
    MakeDayParts(h.year, h.month - 1, h.day);
    hide MakeDay;
  }

  lemma KeptAroundEaster(year: nat, h: Holiday)
    requires year >= 100 && h.year == year && ValidDate(year, h.month - 1, h.day)
    ensures h.name == GoodFriday ==> (h == OfDate(GoodFriday, GetGoodFriday(year)) <==> Observed(h))
    ensures h.name == HolySaturday ==> (h == OfDate(HolySaturday, GetHolySaturday(year)) <==> Observed(h))
    ensures h.name == EasterMonday ==> (h == OfDate(EasterMonday, GetEasterMonday(year)) <==> Observed(h))
  {
    hide GetEaster, GetGoodFriday, GetHolySaturday, GetEasterMonday, MakeDay, YearOf, MonthOf, DateOf, DaysInMonth;
    hide PaschalFullMoon, DayOfHoliday;
    EasterDays(year);
    GetEasterIsEaster(year);
    var n := if h.name == GoodFriday then GetGoodFriday(year)
             else if h.name == HolySaturday then GetHolySaturday(year) else GetEasterMonday(year);
    SpringDate(year, n);
    IsTheDate(h.name, h, n);
    hide OfDate, WeekDay;
    var sunday := DayOfHoliday(h) + if h.name == GoodFriday then 2 else if h.name == HolySaturday then 1 else -1;
    if FirstSundayAfter(sunday, PaschalFullMoon(year)) {
      FirstSundayUnique(sunday, GetEaster(year), PaschalFullMoon(year));
    }
  }

  lemma KeptInDecember(year: nat, h: Holiday)
    requires year >= 100 && h.year == year && ValidDate(year, h.month - 1, h.day)
    ensures h.name == FarmersDay ==>
              (h == OfDate(FarmersDay, FirstFriday(NewDate(year, 11, 1))) <==> Observed(h))
  {
    hide YearOf, MonthOf, DateOf, DaysInMonth, FirstFriday, PaschalFullMoon, MakeDay, NewDate, DayOfHoliday, OfDate;
    var from := NewDate(year, 11, 1);
    var n := FirstFriday(from);
    DecemberDays(year, n - from + 1);
    PartsMakeDay(n);
    IsTheDate(h.name, h, n);
    DecemberOffset(year, h);
    if h.name == FarmersDay && h == OfDate(FarmersDay, n) {
      OfDateParts(FarmersDay, n);
    }
    if h.name == FarmersDay && Observed(h) {
      FridaysAWeekApart(DayOfHoliday(h), n);
    }
  }

  lemma OfDateParts(name: HolidayName, n: int)
    ensures OfDate(name, n).month == MonthOf(n) + 1 && OfDate(name, n).day == DateOf(n)
  {
  }

  lemma DecemberOffset(year: nat, h: Holiday)
    requires year >= 100 && h.year == year
    ensures h.month == 12 ==> DayOfHoliday(h) == NewDate(year, 11, 1) + h.day - 1
  {
    hide DayFromYear, IsLeapYear, DaysBeforeMonth;
  }

  lemma FridaysAWeekApart(m: int, n: int)
    requires -7 < m - n < 7 && WeekDay(m) == WeekDay(n)
    ensures m == n
  {
  }

  lemma {:induction false} InMonthExact(holidays: seq<Holiday>, month: int)
    ensures forall h :: multiset(InMonth(holidays, month))[h] ==
              if h.month == month then multiset(holidays)[h] else 0
  {
    if holidays != [] {
      InMonthExact(holidays[1..], month);
      assert holidays == [holidays[0]] + holidays[1..];
    }
  }

  lemma MonthsInRange(year: nat, h: Holiday)
    requires h in GetHolidaysForYear(year)
    ensures 1 <= h.month <= 12
  {
    hide GetGoodFriday, GetHolySaturday, GetEasterMonday, FirstFriday, NewDate, YearOf, MonthOf, DateOf;
  }

  /** Every holiday of the year is reported in exactly one of the twelve months, as often as it is listed. */
  lemma MonthsPartitionYear(year: nat, h: Holiday)
    requires h in GetHolidaysForYear(year)
    ensures 1 <= h.month <= 12 && h in GetForMonth(h.month, year)
    ensures forall month :: multiset(GetForMonth(month, year))[h] ==
              if month == h.month then multiset(GetHolidaysForYear(year))[h] else 0
  {
    hide GetHolidaysForYear;
    MonthsInRange(year, h);
    var hs := GetHolidaysForYear(year);
    forall month
      ensures multiset(GetForMonth(month, year))[h] == if month == h.month then multiset(hs)[h] else 0
    {
      InMonthExact(hs, month);
    }
    assert h in multiset(hs);
    assert h in multiset(GetForMonth(h.month, year));
  }
}
