/** The upcoming-birthdays query: whose next birthday falls within a window of days, and how far off it is. */
module Birthdays {
  import opened EcmaDate
  import opened LeaveTypes

  const FEBRUARY := 1
  const MARCH := 2

  datatype Person = Person(id: Id, tenantId: Id, firstName: string, lastName: string, dateOfBirth: Option<int>)

  datatype UpcomingBirthday = UpcomingBirthday(
    id: Id, firstName: string, lastName: string, dateOfBirth: int, tenantId: Id, daysUntil: int, isToday: bool)

  // ---- What a birthday is ----

  predicate BornOnLeapDay(dob: int) {
    MonthOf(dob) == FEBRUARY && DateOf(dob) == 29
  }

  /** A birthday has the month and day of the birth date; those born on 29 February have theirs on 1 March in
      a year without that day. */
  predicate IsBirthday(dob: int, n: int) {
    || (MonthOf(n) == MonthOf(dob) && DateOf(n) == DateOf(dob))
    || (BornOnLeapDay(dob) && !IsLeapYear(YearOf(n)) && MonthOf(n) == MARCH && DateOf(n) == 1)
  }

  predicate IsFirstBirthday(dob: int, today: int, n: int) {
    today <= n && IsBirthday(dob, n) && forall k :: today <= k < n ==> !IsBirthday(dob, k)
  }

  function BirthdayIn(dob: int, y: int): int {
    MakeDay(y, MonthOf(dob), DateOf(dob))
  }

  /** 29 February is the only day of the year that some years lack. */
  lemma ValidInEveryYear(y: int, m: int, d: int, z: int)
    requires ValidDate(y, m, d) && (m != FEBRUARY || d != 29)
    ensures ValidDate(z, m, d)
  {
  }

  lemma BirthdayInYear(dob: int, y: int)
    ensures YearOf(BirthdayIn(dob, y)) == y
    ensures MonthOf(BirthdayIn(dob, y)) == if BornOnLeapDay(dob) && !IsLeapYear(y) then MARCH else MonthOf(dob)
    ensures DateOf(BirthdayIn(dob, y)) == if BornOnLeapDay(dob) && !IsLeapYear(y) then 1 else DateOf(dob)
  {
    if BornOnLeapDay(dob) {
      if IsLeapYear(y) {
        MakeDayParts(y, FEBRUARY, 29);
      } else {
        MakeDayParts(y, MARCH, 1);
        assert BirthdayIn(dob, y) == MakeDay(y, MARCH, 1);
      }
    } else {
      PartsMakeDay(dob);
      ValidInEveryYear(YearOf(dob), MonthOf(dob), DateOf(dob), y);
      MakeDayParts(y, MonthOf(dob), DateOf(dob));
    }
  }

  /** Everyone has exactly one birthday in every year. */
  lemma OneBirthdayAYear(dob: int, n: int)
    ensures IsBirthday(dob, n) <==> n == BirthdayIn(dob, YearOf(n))
  {
    BirthdayInYear(dob, YearOf(n));
    hide DayFromYear, IsLeapYear, DaysBeforeMonth, YearOf, MonthOf, DateOf;
    PartsMakeDay(n);
    if BornOnLeapDay(dob) && !IsLeapYear(YearOf(n)) {
      assert BirthdayIn(dob, YearOf(n)) == MakeDay(YearOf(n), MARCH, 1) by { PartsMakeDay(BirthdayIn(dob, YearOf(n))); }
      if MonthOf(n) == FEBRUARY && DateOf(n) == 29 {
        NoLeapDay(n);
        assert false;
      }
    }
  }

  lemma NoLeapDay(n: int)
    requires MonthOf(n) == FEBRUARY && DateOf(n) == 29
    ensures IsLeapYear(YearOf(n))
  {
    hide YearOf, MonthOf, DateOf;
    PartsMakeDay(n);
  }

  // ---- What the query computes ----

  /** The date that the loop body compares with the window. */
  function NextOccurrence(dob: int, today: int): int {
    var thisYear := NewDate(YearOf(today), MonthOf(dob), DateOf(dob));
    if thisYear < today then SetFullYear(thisYear, YearOf(today) + 1) else thisYear
  }

  /** This year's birthday was moved to 1 March and is over, and next year has a 29 February again: moving
      1 March on by a year misses it. */
  predicate MissesLeapDay(dob: int, today: int) {
    && BornOnLeapDay(dob) && !IsLeapYear(YearOf(today)) && IsLeapYear(YearOf(today) + 1)
    && BirthdayIn(dob, YearOf(today)) < today
  }

  /** `new Date` reads the years 0 to 99 as 1900 to 1999. */
  predicate TwoDigitYear(today: int) {
    0 <= YearOf(today) <= 99
  }

  lemma NextOccurrenceIs(dob: int, today: int)
    ensures var y := YearOf(today);
            NextOccurrence(dob, today) ==
            if TwoDigitYear(today) then BirthdayIn(dob, 1900 + y)
            else if BirthdayIn(dob, y) >= today then BirthdayIn(dob, y)
            else BirthdayIn(dob, y + 1) + if MissesLeapDay(dob, today) then 1 else 0
  {
    hide YearOf, BirthdayIn, NextOccurrence, MissesLeapDay, TwoDigitYear;
    if TwoDigitYear(today) {
      NextOfTwoDigitYear(dob, today);
    } else {
      NextOfFullYear(dob, today);
    }
  }

  lemma NextOfTwoDigitYear(dob: int, today: int)
    requires TwoDigitYear(today)
    ensures NextOccurrence(dob, today) == BirthdayIn(dob, 1900 + YearOf(today))
  {
    hide YearOf, MonthOf, DateOf, MakeDay, SetFullYear;
    LaterYear(dob, today, 1900 + YearOf(today));
  }

  lemma NextOfFullYear(dob: int, today: int)
    requires !TwoDigitYear(today)
    ensures var y := YearOf(today);
            NextOccurrence(dob, today) ==
            if BirthdayIn(dob, y) >= today then BirthdayIn(dob, y)
            else BirthdayIn(dob, y + 1) + if MissesLeapDay(dob, today) then 1 else 0
  {
    var y := YearOf(today);
    BirthdayInYear(dob, y);
    BirthdayInYear(dob, y + 1);
    var b := BirthdayIn(dob, y);
    hide YearOf, MonthOf, DateOf, DayFromYear;
    if b < today && BornOnLeapDay(dob) && !IsLeapYear(y) {
      assert NextOccurrence(dob, today) == MakeDay(y + 1, MARCH, 1);
      assert BirthdayIn(dob, y + 1) == MakeDay(y + 1, FEBRUARY, 29);
    }
  }

  /** The birthday in a later year is after any day of this year and after this year's birthday. */
  lemma LaterYear(dob: int, today: int, y: int)
    requires YearOf(today) < y
    ensures today < BirthdayIn(dob, y)
    ensures forall z :: z < y ==> BirthdayIn(dob, z) < BirthdayIn(dob, y)
  {
    hide YearOf, BirthdayIn, DayFromYear;
    BirthdayInYear(dob, y);
    YearsInOrder(YearOf(today) + 1, y);
    forall z | z < y
      ensures BirthdayIn(dob, z) < BirthdayIn(dob, y)
    {
      BirthdayInYear(dob, z);
      YearsInOrder(z + 1, y);
      DayWithinYear(BirthdayIn(dob, z));
    }
  }

  lemma DayWithinYear(n: int)
    ensures DayFromYear(YearOf(n)) <= n < DayFromYear(YearOf(n) + 1)
  {
  }

  /** This year's birthday if it is still to come, or next year's. */
  function FirstBirthday(dob: int, today: int): int {
    var thisYear := BirthdayIn(dob, YearOf(today));
    if thisYear >= today then thisYear else BirthdayIn(dob, YearOf(today) + 1)
  }

  lemma FirstBirthdayIs(dob: int, today: int)
    ensures IsFirstBirthday(dob, today, FirstBirthday(dob, today))
  {
    var y := YearOf(today);
    BirthdayInYear(dob, y);
    BirthdayInYear(dob, y + 1);
    var b := FirstBirthday(dob, today);
    hide YearOf, MonthOf, DateOf, DayFromYear, IsBirthday, BirthdayIn;
    OneBirthdayAYear(dob, b);
    if b < today {
      YearsBetween(b, b, today);
      assert false;
    }
    forall k | today <= k < b
      ensures !IsBirthday(dob, k)
    {
      YearsBetween(today, k, b);
      OneBirthdayAYear(dob, k);
    }
  }

  lemma YearsBetween(a: int, b: int, c: int)
    requires a <= b <= c
    ensures YearOf(a) <= YearOf(b) <= YearOf(c)
  {
    hide YearOf, DayFromYear;
    DayWithinYear(a); DayWithinYear(b); DayWithinYear(c);
    if YearOf(b) < YearOf(a) {
      YearsInOrder(YearOf(b) + 1, YearOf(a));
    }
    if YearOf(c) < YearOf(b) {
      YearsInOrder(YearOf(c) + 1, YearOf(b));
    }
  }

  lemma FirstBirthdayUnique(dob: int, today: int, m: int, n: int)
    requires IsFirstBirthday(dob, today, m) && IsFirstBirthday(dob, today, n)
    ensures m == n
  {
  }

  /** When the date compared is not the first birthday: a leap day missed, or a year that `new Date` moves. */
  predicate MissesFirst(dob: int, today: int) {
    TwoDigitYear(today) || MissesLeapDay(dob, today)
  }

  lemma NextIsNotBefore(dob: int, today: int)
    ensures var first, next := FirstBirthday(dob, today), NextOccurrence(dob, today);
            && (next == first <==> !MissesFirst(dob, today))
            && (TwoDigitYear(today) ==> next == BirthdayIn(dob, 1900 + YearOf(today)) && first < next)
            && (MissesLeapDay(dob, today) && !TwoDigitYear(today) ==>
                  next == first + 1 && first == BirthdayIn(dob, YearOf(today) + 1))
  {
    hide BornOnLeapDay, IsLeapYear, YearOf, BirthdayIn, NextOccurrence;
    NextOccurrenceIs(dob, today);
    if TwoDigitYear(today) {
      LaterYear(dob, today, 1900 + YearOf(today));
    }
  }

  /** The date compared is the first birthday from today on if and only if no leap day is missed and the year is
      not moved; a leap day missed makes it a day late. */
  lemma NextOccurrenceIsFirst(dob: int, today: int)
    ensures IsFirstBirthday(dob, today, NextOccurrence(dob, today)) <==> !MissesFirst(dob, today)
    ensures MissesLeapDay(dob, today) && !TwoDigitYear(today) ==>
              IsFirstBirthday(dob, today, NextOccurrence(dob, today) - 1)
  {
    hide MissesFirst, MissesLeapDay, TwoDigitYear, FirstBirthday, IsBirthday, BirthdayIn, NextOccurrence, YearOf;
    NextIsNotBefore(dob, today);
    FirstBirthdayIs(dob, today);
    hide IsFirstBirthday;
    if IsFirstBirthday(dob, today, NextOccurrence(dob, today)) {
      FirstBirthdayUnique(dob, today, NextOccurrence(dob, today), FirstBirthday(dob, today));
    }
  }

  const LEAP_BIRTH := MakeDay(2000, FEBRUARY, 29)
  const AFTER_MARCH_FIRST := MakeDay(2023, MARCH, 2)

  lemma LeapDayParts(y: int)
    requires IsLeapYear(y)
    ensures BornOnLeapDay(MakeDay(y, FEBRUARY, 29)) && MakeDay(y, MARCH, 1) == MakeDay(y, FEBRUARY, 29) + 1
  {
    hide YearOf, MonthOf, DateOf, DayFromYear;
    MakeDayParts(y, FEBRUARY, 29);
  }

  lemma MarchSecondParts(y: int)
    ensures YearOf(MakeDay(y, MARCH, 2)) == y && MakeDay(y, FEBRUARY, 29) < MakeDay(y, MARCH, 2)
  {
    hide YearOf, MonthOf, DateOf, DayFromYear;
    MakeDayParts(y, MARCH, 2);
  }

  /** It does happen: born on 29 February 2000 and looked for from 2 March 2023, the birthday of 29 February 2024 is
      taken to be on 1 March. */
  lemma LeapDayIsMissed()
    ensures MissesLeapDay(LEAP_BIRTH, AFTER_MARCH_FIRST)
    ensures IsFirstBirthday(LEAP_BIRTH, AFTER_MARCH_FIRST, MakeDay(2024, FEBRUARY, 29))
    ensures NextOccurrence(LEAP_BIRTH, AFTER_MARCH_FIRST) == MakeDay(2024, MARCH, 1)
  {
    hide YearOf, MonthOf, DateOf, MakeDay, IsFirstBirthday, NextOccurrence;
    LeapDayParts(2000);
    LeapDayParts(2024);
    MarchSecondParts(2023);
    assert MissesLeapDay(LEAP_BIRTH, AFTER_MARCH_FIRST);
    NextOccurrenceIs(LEAP_BIRTH, AFTER_MARCH_FIRST);
    NextOccurrenceIsFirst(LEAP_BIRTH, AFTER_MARCH_FIRST);
  }

  lemma MissedLeapDayIsFar(dob: int, today: int)
    requires MissesLeapDay(dob, today)
    ensures BirthdayIn(dob, YearOf(today)) < today && BirthdayIn(dob, YearOf(today) + 1) - today >= 60
  {
    var y := YearOf(today);
    BirthdayInYear(dob, y + 1);
    hide YearOf, DayFromYear;
    assert BirthdayIn(dob, y + 1) == DayFromYear(y + 1) + 59;
  }

  /** The users that the query selects. */
  function Born(users: seq<Person>, tenantId: Id): (born: seq<Person>)
    ensures forall p <- born :: p in users && p.tenantId == tenantId && p.dateOfBirth.Some?
  {
    if users == [] then []
    else
      var p := users[|users| - 1];
      Born(users[..|users| - 1], tenantId) + if p.tenantId == tenantId && p.dateOfBirth.Some? then [p] else []
  }

  predicate InWindow(dob: int, today: int, windowDays: int) {
    today <= NextOccurrence(dob, today) <= today + windowDays
  }

  function Entry(p: Person, today: int): UpcomingBirthday
    requires p.dateOfBirth.Some?
  {
    var dob := p.dateOfBirth.value;
    var daysUntil := NextOccurrence(dob, today) - today;
    UpcomingBirthday(p.id, p.firstName, p.lastName, dob, p.tenantId, daysUntil, daysUntil == 0)
  }

  function UpcomingOf(born: seq<Person>, today: int, windowDays: int): (upcoming: seq<UpcomingBirthday>)
    requires forall p <- born :: p.dateOfBirth.Some?
  {
    if born == [] then []
    else
      var p := born[|born| - 1];
      UpcomingOf(born[..|born| - 1], today, windowDays) +
      if InWindow(p.dateOfBirth.value, today, windowDays) then [Entry(p, today)] else []
  }

  function Upcoming(users: seq<Person>, tenantId: Id, today: int, windowDays: int): seq<UpcomingBirthday> {
    UpcomingOf(Born(users, tenantId), today, windowDays)
  }

  method GetUpcomingBirthdays(users: seq<Person>, tenantId: Id, today: int, windowDays: int)
    returns (results: seq<UpcomingBirthday>)
    ensures results == Upcoming(users, tenantId, today, windowDays)
  {
    var born := Born(users, tenantId);
    var inWindow := SetDate(today, DateOf(today) + windowDays);
    SetDateMovesByDays(today, windowDays);
    hide SetDate, NewDate, SetFullYear, YearOf, MonthOf, DateOf, Born;
    results := [];
    for i := 0 to |born|
      invariant results == UpcomingOf(born[..i], today, windowDays)
    {
      var user := born[i];
      var dob := user.dateOfBirth.value;
      var birthdayThisYear := NewDate(YearOf(today), MonthOf(dob), DateOf(dob));
      if birthdayThisYear < today {
        birthdayThisYear := SetFullYear(birthdayThisYear, YearOf(today) + 1);
      }
      assert born[..i + 1][..i] == born[..i];
      if birthdayThisYear >= today && birthdayThisYear <= inWindow {
        var daysUntil := birthdayThisYear - today;
        results := results + [UpcomingBirthday(
          user.id, user.firstName, user.lastName, dob, user.tenantId, daysUntil, daysUntil == 0)];
      }
    }
    assert born[..|born|] == born;
  }

  lemma {:induction false} BornIsExact(users: seq<Person>, tenantId: Id, p: Person)
    ensures p in Born(users, tenantId) <==> p in users && p.tenantId == tenantId && p.dateOfBirth.Some?
  {
    if users != [] {
      BornIsExact(users[..|users| - 1], tenantId, p);
      assert users == users[..|users| - 1] + [users[|users| - 1]];
    }
  }

  lemma {:induction false} UpcomingOfIsExact(born: seq<Person>, today: int, windowDays: int, b: UpcomingBirthday)
    requires forall p <- born :: p.dateOfBirth.Some?
    ensures b in UpcomingOf(born, today, windowDays) <==>
            exists p <- born :: InWindow(p.dateOfBirth.value, today, windowDays) && b == Entry(p, today)
  {
    hide InWindow, Entry;
    if born != [] {
      UpcomingOfIsExact(born[..|born| - 1], today, windowDays, b);
      assert born == born[..|born| - 1] + [born[|born| - 1]];
    }
  }

  /** The window ends after the first birthday but before the date that is compared with it. */
  predicate WindowEndsBetween(dob: int, today: int, windowDays: int) {
    if TwoDigitYear(today) then
      FirstBirthday(dob, today) <= today + windowDays < BirthdayIn(dob, 1900 + YearOf(today))
    else
      MissesLeapDay(dob, today) && today + windowDays == BirthdayIn(dob, YearOf(today) + 1)
  }

  /** The window test answers correctly whether a birthday falls on one of the days today, ..., today + windowDays,
      if and only if the window does not end between: on a missed leap day itself, or, in the years 0 to 99,
      before the twentieth century. */
  lemma InWindowIsExact(dob: int, today: int, windowDays: int)
    ensures (InWindow(dob, today, windowDays) <==>
             exists n | today <= n <= today + windowDays :: IsBirthday(dob, n)) <==>
            !WindowEndsBetween(dob, today, windowDays)
  {
    NextIsNotBefore(dob, today);
    FirstBirthdayIs(dob, today);
    hide IsBirthday, NextOccurrence, MissesLeapDay, TwoDigitYear, FirstBirthday, YearOf, BirthdayIn;
    var first := FirstBirthday(dob, today);
    if first <= today + windowDays {
      assert today <= first <= today + windowDays && IsBirthday(dob, first);
    }
  }

  /** The window reaches the first birthday, but the date compared is another. */
  predicate Misread(dob: int, today: int, windowDays: int) {
    MissesFirst(dob, today) && FirstBirthday(dob, today) <= today + windowDays
  }

  /** The window of the job is too short to misread anyone, from the year 100 on. */
  lemma ShortWindowsMisreadNobody(dob: int, today: int, windowDays: int)
    requires !TwoDigitYear(today) && windowDays < 60
    ensures !Misread(dob, today, windowDays) && !WindowEndsBetween(dob, today, windowDays)
  {
    hide MissesLeapDay, TwoDigitYear, BirthdayIn;
    if MissesLeapDay(dob, today) {
      MissedLeapDayIsFar(dob, today);
    }
  }

  /** The entry is for this person, with the number of days to their first birthday from today on, which lies in
      the window, and marked as today exactly on the day. */
  predicate Announces(b: UpcomingBirthday, p: Person, today: int, windowDays: int)
    requires p.dateOfBirth.Some?
  {
    && b.id == p.id && b.tenantId == p.tenantId && b.firstName == p.firstName && b.lastName == p.lastName
    && b.dateOfBirth == p.dateOfBirth.value && b.daysUntil <= windowDays
    && IsFirstBirthday(b.dateOfBirth, today, today + b.daysUntil)
    && (b.isToday <==> IsBirthday(b.dateOfBirth, today))
  }

  function RightEntry(p: Person, today: int): UpcomingBirthday
    requires p.dateOfBirth.Some?
  {
    var daysUntil := FirstBirthday(p.dateOfBirth.value, today) - today;
    UpcomingBirthday(p.id, p.firstName, p.lastName, p.dateOfBirth.value, p.tenantId, daysUntil, daysUntil == 0)
  }

  lemma AnnouncesIs(b: UpcomingBirthday, p: Person, today: int, windowDays: int)
    requires p.dateOfBirth.Some?
    ensures Announces(b, p, today, windowDays) <==>
            b == RightEntry(p, today) && FirstBirthday(p.dateOfBirth.value, today) <= today + windowDays
  {
    hide FirstBirthday, IsBirthday;
    var dob := p.dateOfBirth.value;
    FirstBirthdayIs(dob, today);
    assert IsFirstBirthday(dob, today, today) <==> IsBirthday(dob, today);
    if Announces(b, p, today, windowDays) {
      FirstBirthdayUnique(dob, today, today + b.daysUntil, FirstBirthday(dob, today));
    }
    if FirstBirthday(dob, today) == today || IsBirthday(dob, today) {
      FirstBirthdayUnique(dob, today, today, FirstBirthday(dob, today));
    }
  }

  /** For one person: what is listed is what ought to be, if and only if the person is not misread. */
  lemma EntryIsRight(p: Person, today: int, windowDays: int)
    requires p.dateOfBirth.Some?
    ensures var dob := p.dateOfBirth.value;
            && (!Misread(dob, today, windowDays) ==>
                  forall b ::
                    InWindow(dob, today, windowDays) && b == Entry(p, today) <==> Announces(b, p, today, windowDays))
            && (Misread(dob, today, windowDays) ==>
                  Announces(RightEntry(p, today), p, today, windowDays) && Entry(p, today) != RightEntry(p, today))
  {
    hide FirstBirthday, NextOccurrence, MissesFirst, MissesLeapDay, TwoDigitYear, YearOf, BirthdayIn, Announces;
    var dob := p.dateOfBirth.value;
    NextIsNotBefore(dob, today);
    NextOccurrenceNotEarly(dob, today);
    AnnouncesIs(RightEntry(p, today), p, today, windowDays);
    forall b
      ensures !Misread(dob, today, windowDays) ==>
                (InWindow(dob, today, windowDays) && b == Entry(p, today) <==> Announces(b, p, today, windowDays))
    {
      AnnouncesIs(b, p, today, windowDays);
    }
  }

  lemma NextOccurrenceNotEarly(dob: int, today: int)
    ensures today <= FirstBirthday(dob, today) <= NextOccurrence(dob, today)
  {
    hide FirstBirthday, NextOccurrence, MissesLeapDay, TwoDigitYear, YearOf, BirthdayIn, IsBirthday;
    FirstBirthdayIs(dob, today);
    NextIsNotBefore(dob, today);
  }

  /** The list is right about everyone: it holds exactly the announcements of the tenant's users. */
  ghost predicate ListsExactly(upcoming: seq<UpcomingBirthday>, users: seq<Person>, tenantId: Id, today: int,
                               windowDays: int)
  {
    forall b :: b in upcoming <==>
      exists p <- users :: p.tenantId == tenantId && p.dateOfBirth.Some? && Announces(b, p, today, windowDays)
  }

  /** For every day and window: the query lists exactly the tenant's users with a birthday in the window, each with
      the number of days to the first one, if and only if it misreads none of them. */
  lemma UpcomingIsExact(users: seq<Person>, tenantId: Id, today: int, windowDays: int)
    ensures ListsExactly(Upcoming(users, tenantId, today, windowDays), users, tenantId, today, windowDays) <==>
            forall p <- users :: p.tenantId == tenantId && p.dateOfBirth.Some? ==>
                                   !Misread(p.dateOfBirth.value, today, windowDays)
  {
    hide Misread, Announces, Entry, InWindow, RightEntry, Upcoming;
    if p :| p in users && p.tenantId == tenantId && p.dateOfBirth.Some? &&
            Misread(p.dateOfBirth.value, today, windowDays)
    {
      MisreadSpoilsList(users, tenantId, today, windowDays, p);
    } else {
      forall b
        ensures b in Upcoming(users, tenantId, today, windowDays) <==>
                exists p <- users :: p.tenantId == tenantId && p.dateOfBirth.Some? && Announces(b, p, today, windowDays)
      {
        UpcomingMembers(users, tenantId, today, windowDays, b);
        forall p | p in users && p.tenantId == tenantId && p.dateOfBirth.Some?
          ensures InWindow(p.dateOfBirth.value, today, windowDays) && b == Entry(p, today) <==>
                  Announces(b, p, today, windowDays)
        {
          EntryIsRight(p, today, windowDays);
        }
      }
    }
  }

  lemma UpcomingMembers(users: seq<Person>, tenantId: Id, today: int, windowDays: int, b: UpcomingBirthday)
    ensures b in Upcoming(users, tenantId, today, windowDays) <==>
            exists p <- users :: p.tenantId == tenantId && p.dateOfBirth.Some? &&
                                 InWindow(p.dateOfBirth.value, today, windowDays) && b == Entry(p, today)
  {
    hide InWindow, Entry;
    UpcomingOfIsExact(Born(users, tenantId), today, windowDays, b);
    forall p | p in users
      ensures p in Born(users, tenantId) <==> p.tenantId == tenantId && p.dateOfBirth.Some?
    {
      BornIsExact(users, tenantId, p);
    }
    hide Born, UpcomingOf;
  }

  lemma MisreadSpoilsList(users: seq<Person>, tenantId: Id, today: int, windowDays: int, p: Person)
    requires p in users && p.tenantId == tenantId && p.dateOfBirth.Some? &&
             Misread(p.dateOfBirth.value, today, windowDays)
    ensures !ListsExactly(Upcoming(users, tenantId, today, windowDays), users, tenantId, today, windowDays)
  {
    hide Misread, Announces, InWindow, NextOccurrence, FirstBirthday, Upcoming;
    var right := RightEntry(p, today);
    EntryIsRight(p, today, windowDays);
    UpcomingMembers(users, tenantId, today, windowDays, right);
    hide Entry, RightEntry;
    forall q | q in users && q.dateOfBirth.Some?
      ensures right != Entry(q, today)
    {
      if right == Entry(q, today) {
        EntriesTellPersons(p, q, today);
      }
    }
  }

  lemma EntriesTellPersons(p: Person, q: Person, today: int)
    requires p.dateOfBirth.Some? && q.dateOfBirth.Some? && RightEntry(p, today) == Entry(q, today)
    ensures p == q
  {
    hide FirstBirthday, NextOccurrence;
  }
}
