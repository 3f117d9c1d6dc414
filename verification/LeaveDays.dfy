/** Counting the working days of a leave. */
module LeaveDays {
  import opened EcmaDate

  /** How many days from startDate to endDate, both included, are Mondays to Fridays. */
  function WeekdaysBetween(startDate: int, endDate: int): nat
    decreases endDate - startDate + 1
  {
    if endDate < startDate then 0
    else WeekdaysBetween(startDate, endDate - 1) + if IsWeekday(endDate) then 1 else 0
  }

  /** The day walk of the submit handler; the count has a closed form in the two ends alone. */
  method CalculateTotalDays(startDate: int, endDate: int) returns (count: nat)
    ensures count == WeekdaysBetween(startDate, endDate)
    ensures startDate <= endDate ==> count == WeekdaysBefore(endDate + 1) - WeekdaysBefore(startDate)
    ensures endDate < startDate ==> count == 0
  {
    hide IsWeekday, SetDate, WeekdaysBefore, DateOf, YearOf, MonthOf;
    hide DayFromYear, IsLeapYear, DaysBeforeMonth, DaysInMonth;
    count := 0;
    var current := startDate;
    while current <= endDate
      invariant startDate <= current && (startDate <= endDate ==> current <= endDate + 1)
      invariant endDate < startDate ==> current == startDate
      invariant count == WeekdaysBetween(startDate, current - 1)
      decreases endDate - current
    {
      if IsWeekday(current) {
        count := count + 1;
      }
      SetDateMovesByDays(current, 1);
      current := SetDate(current, DateOf(current) + 1);
    }
    if startDate <= endDate {
      WeekdaysClosedForm(startDate, endDate);
    }
  }

  /** Weekdays from Monday 29 December 1969 up to the day before n: five a full week, then Monday first. */
  function WeekdaysBefore(n: int): int {
    5 * ((n + 3) / 7) + if (n + 3) % 7 < 5 then (n + 3) % 7 else 5
  }

  lemma NextWeekday(n: int)
    ensures WeekdaysBefore(n + 1) == WeekdaysBefore(n) + if IsWeekday(n) then 1 else 0
  {
    var q, r := (n + 3) / 7, (n + 3) % 7;
    assert (n + 4) / 7 == if r == 6 then q + 1 else q;
    assert (n + 4) % 7 == if r == 6 then 0 else r + 1;
  }

  lemma {:induction false} WeekdaysClosedForm(startDate: int, endDate: int)
    requires startDate <= endDate + 1
    ensures WeekdaysBetween(startDate, endDate) == WeekdaysBefore(endDate + 1) - WeekdaysBefore(startDate)
    decreases endDate - startDate + 1
  {
    if startDate <= endDate {
      hide WeekdaysBefore, IsWeekday;
      WeekdaysClosedForm(startDate, endDate - 1);
      NextWeekday(endDate);
    }
  }

  /** Splitting a range after any of its days splits the count. */
  lemma WeekdaysAdditive(startDate: int, middle: int, endDate: int)
    requires startDate - 1 <= middle <= endDate
    ensures WeekdaysBetween(startDate, endDate) ==
            WeekdaysBetween(startDate, middle) + WeekdaysBetween(middle + 1, endDate)
  {
    WeekdaysClosedForm(startDate, middle);
    WeekdaysClosedForm(middle + 1, endDate);
    WeekdaysClosedForm(startDate, endDate);
  }

  /** Weekend days among the first r days of a walk that starts on weekday w. */
  function WeekendDays(w: int, r: int): int {
    if w == SUNDAY then (if r >= 1 then 1 else 0)
    else if w + r <= 6 then 0
    else if w + r == 7 then 1
    else 2
  }

  /** n days hold five weekdays a full week, plus the remaining days less the weekend days among them. */
  lemma WeekdaysByWeeks(startDate: int, n: nat)
    ensures WeekdaysBetween(startDate, startDate + n - 1) ==
            5 * (n / 7) + n % 7 - WeekendDays(WeekDay(startDate), n % 7)
  {
    WeekdaysClosedForm(startDate, startDate + n - 1);
    hide WeekdaysBefore, WeekdaysBetween, WeekDay, WeekendDays;
    var a, b := (startDate + 3) / 7, (startDate + 3) % 7;
    FullWeeks(a, b, n / 7, n % 7);
    assert startDate == 7 * a + b - 3 && n == 7 * (n / 7) + n % 7;
  }

  /** The walk from day b of week a over q weeks and r days, counted from Mondays. */
  lemma FullWeeks(a: int, b: int, q: nat, r: nat)
    requires 0 <= b < 7 && r < 7
    ensures WeekdaysBefore(7 * a + b - 3 + 7 * q + r) - WeekdaysBefore(7 * a + b - 3) ==
            5 * q + r - WeekendDays(WeekDay(7 * a + b - 3), r)
  {
    MondayBased(a, b);
    hide WeekdaysBefore, WeekDay;
    if b + r < 7 {
      MondayBased(a + q, b + r);
      assert 7 * (a + q) + (b + r) - 3 == 7 * a + b - 3 + 7 * q + r;
    } else {
      MondayBased(a + q + 1, b + r - 7);
      assert 7 * (a + q + 1) + (b + r - 7) - 3 == 7 * a + b - 3 + 7 * q + r;
    }
  }

  /** Counting weeks from a Monday: day b of week a has 5a weekdays and at most five more before it. */
  lemma MondayBased(a: int, b: int)
    requires 0 <= b < 7
    ensures WeekdaysBefore(7 * a + b - 3) == 5 * a + if b < 5 then b else 5
    ensures WeekDay(7 * a + b - 3) == if b == 6 then 0 else b + 1
  {
    assert (7 * a + b) / 7 == a && (7 * a + b) % 7 == b;
    assert (7 * a + b + 1) % 7 == if b == 6 then 0 else b + 1;
  }
}
