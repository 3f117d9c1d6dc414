/** The birthday job: for each upcoming birthday it notifies every other user of the tenant, once a day. It is
    run again every few seconds, so that once rests on the check before each insert. */
module BirthdayNotifications {
  import opened EcmaDate
  import opened LeaveTypes
  import opened Birthdays

  const WINDOW_DAYS := 7
  const SOURCE_PREFIX := "birthday:"

  datatype Priority = LOW | MEDIUM | HIGH

  datatype SourceType = LEAVE_REQUEST | LEAVE_BALANCE | SYSTEM

  datatype Notification = Notification(
    tenantId: Id, userId: Id, title: string, message: string, sourceType: SourceType, sourceId: Option<string>,
    priority: Priority)

  // ---- Texts ----

  const DIGITS := "0123456789"

  /** The last width decimal digits of n. */
  function Padded(n: nat, width: nat): (text: string)
    ensures |text| == width
  {
    if width == 0 then "" else Padded(n / 10, width - 1) + [DIGITS[n % 10]]
  }

  function Decimal(n: nat): string {
    if n < 10 then [DIGITS[n]] else Decimal(n / 10) + [DIGITS[n % 10]]
  }

  /** `toISOString().slice(0, 10)`. Years outside 0 to 9999 are written with a sign and six digits. */
  function IsoDay(n: int): (text: string)
    ensures |text| == 10
  {
    var y, month := YearOf(n), Padded(MonthOf(n) + 1, 2);
    if 0 <= y <= 9999 then Padded(y, 4) + "-" + month + "-" + Padded(DateOf(n), 2)
    else if y < 0 then "-" + Padded(-y, 6) + "-" + month
    else "+" + Padded(y, 6) + "-" + month
  }

  function SourceId(id: Id, day: int): string {
    SOURCE_PREFIX + id + "-" + IsoDay(day)
  }

  function Title(b: UpcomingBirthday): string {
    if b.isToday then "\U{1F382} Today is " + b.firstName + " " + b.lastName + "'s Birthday!"
    else "\U{1F382} Upcoming Birthday \U{2014} " + b.firstName + " " + b.lastName
  }

  function Message(b: UpcomingBirthday): string
    requires 0 <= b.daysUntil
  {
    if b.isToday then "Today is " + b.firstName + " " + b.lastName + "'s birthday. Wish them a happy birthday!"
    else b.firstName + " " + b.lastName + "'s birthday is in " + Decimal(b.daysUntil) + " day" +
         (if b.daysUntil == 1 then "" else "s") + "."
  }

  function Announcement(tenantId: Id, userId: Id, b: UpcomingBirthday, day: int): Notification
    requires 0 <= b.daysUntil
  {
    Notification(tenantId, userId, Title(b), Message(b), SYSTEM, Some(SourceId(b.id, day)),
                 if b.isToday then HIGH else LOW)
  }

  function Power10(width: nat): nat {
    if width == 0 then 1 else 10 * Power10(width - 1)
  }

  lemma AnnouncementKey(tenantId: Id, userId: Id, b: UpcomingBirthday, day: int)
    requires 0 <= b.daysUntil
    ensures var n := Announcement(tenantId, userId, b, day);
            n.tenantId == tenantId && n.userId == userId && n.sourceId == Some(SourceId(b.id, day))
  {
  }

  lemma {:induction false} PaddedInjective(m: nat, n: nat, width: nat)
    requires m < Power10(width) && n < Power10(width) && Padded(m, width) == Padded(n, width)
    ensures m == n
  {
    if width > 0 {
      var s, t := Padded(m / 10, width - 1), Padded(n / 10, width - 1);
      assert s == Padded(m, width)[..width - 1] && t == Padded(n, width)[..width - 1];
      assert DIGITS[m % 10] == Padded(m, width)[width - 1] == DIGITS[n % 10];
      PaddedInjective(m / 10, n / 10, width - 1);
    }
  }

  /** Within the four-digit years the text of a day tells the day. */
  lemma IsoDayInjective(m: int, n: int)
    requires 0 <= YearOf(m) <= 9999 && 0 <= YearOf(n) <= 9999
    requires IsoDay(m) == IsoDay(n)
    ensures m == n
  {
    hide YearOf, MonthOf, DateOf, Padded;
    var s, t := IsoDay(m), IsoDay(n);
    assert s[..4] == Padded(YearOf(m), 4) && t[..4] == Padded(YearOf(n), 4);
    assert s[5..7] == Padded(MonthOf(m) + 1, 2) && t[5..7] == Padded(MonthOf(n) + 1, 2);
    assert s[8..] == Padded(DateOf(m), 2) && t[8..] == Padded(DateOf(n), 2);
    assert Power10(4) == 10000 && Power10(2) == 100;
    PaddedInjective(YearOf(m), YearOf(n), 4);
    PaddedInjective(MonthOf(m) + 1, MonthOf(n) + 1, 2);
    PaddedInjective(DateOf(m), DateOf(n), 2);
    PartsMakeDay(m);
    PartsMakeDay(n);
  }

  /** A source id tells the person and the text of the day, whatever characters the id has. */
  lemma SourceIdInjective(id: Id, day: int, id': Id, day': int)
    requires SourceId(id, day) == SourceId(id', day')
    ensures id == id' && IsoDay(day) == IsoDay(day')
  {
    hide IsoDay;
    var s, t := SourceId(id, day), SourceId(id', day');
    assert |s| == |SOURCE_PREFIX| + |id| + 11 && |t| == |SOURCE_PREFIX| + |id'| + 11;
    var k := |SOURCE_PREFIX|;
    assert s[k..k + |id|] == id && t[k..k + |id'|] == id';
    assert s[k + |id| + 1..] == IsoDay(day) && t[k + |id'| + 1..] == IsoDay(day');
  }

  /** The number that decimal digits write. */
  function Value(text: string): int {
    if text == "" then 0 else 10 * Value(text[..|text| - 1]) + (text[|text| - 1] as int - '0' as int)
  }

  predicate AllDigits(text: string) {
    forall c <- text :: '0' <= c <= '9'
  }

  lemma DigitIs(k: nat)
    requires k < 10
    ensures '0' <= DIGITS[k] <= '9' && DIGITS[k] as int - '0' as int == k
  {
    assert k == 0 || k == 1 || k == 2 || k == 3 || k == 4 || k == 5 || k == 6 || k == 7 || k == 8 || k == 9;
  }

  /** The text of a number is read back as that number, and has no leading zero. */
  lemma {:induction false} DecimalReads(n: nat)
    ensures AllDigits(Decimal(n)) && Value(Decimal(n)) == n
    ensures |Decimal(n)| > 0 && (Decimal(n)[0] == '0' ==> n == 0)
  {
    DigitIs(n % 10);
    if n >= 10 {
      DecimalReads(n / 10);
      assert Decimal(n)[..|Decimal(n)| - 1] == Decimal(n / 10);
    } else {
      assert Decimal(n)[..0] == "";
    }
  }

  /** The text of width digits is read back as the number, if it has no more digits than that. */
  lemma {:induction false} PaddedReads(n: nat, width: nat)
    requires n < Power10(width)
    ensures AllDigits(Padded(n, width)) && Value(Padded(n, width)) == n
  {
    if width > 0 {
      DigitIs(n % 10);
      PaddedReads(n / 10, width - 1);
      assert Padded(n, width)[..width - 1] == Padded(n / 10, width - 1);
    }
  }

  /** The text of a day in the four-digit years is the year, month and day, in digits and parted by dashes. */
  lemma IsoDayReads(day: int)
    requires 0 <= YearOf(day) <= 9999
    ensures var text := IsoDay(day);
            && AllDigits(text[..4]) && AllDigits(text[5..7]) && AllDigits(text[8..])
            && text[4] == text[7] == '-'
            && Value(text[..4]) == YearOf(day) && Value(text[5..7]) == MonthOf(day) + 1
            && Value(text[8..]) == DateOf(day)
  {
    hide YearOf, MonthOf, DateOf, Padded;
    assert Power10(4) == 10000 && Power10(2) == 100;
    PaddedReads(YearOf(day), 4);
    PaddedReads(MonthOf(day) + 1, 2);
    PaddedReads(DateOf(day), 2);
    hide Power10, Value, AllDigits;
    IsoDayParts(day);
  }

  lemma IsoDayParts(day: int)
    requires 0 <= YearOf(day) <= 9999
    ensures var text := IsoDay(day);
            && text[..4] == Padded(YearOf(day), 4) && text[4] == '-' && text[5..7] == Padded(MonthOf(day) + 1, 2)
            && text[7] == '-' && text[8..] == Padded(DateOf(day), 2)
  {
    hide YearOf, MonthOf, DateOf, Padded;
  }

  /** What a recipient reads: the person's name, the day or how far off it is, and how urgent it is. */
  lemma AnnouncementReads(tenantId: Id, userId: Id, b: UpcomingBirthday, day: int)
    requires 0 <= b.daysUntil
    ensures var n := Announcement(tenantId, userId, b, day);
            var name := b.firstName + " " + b.lastName;
            && n.sourceType == SYSTEM
            && n.sourceId == Some("birthday:" + b.id + "-" + IsoDay(day))
            && (b.isToday ==>
                  && n.priority == HIGH
                  && n.title == "\U{1F382} Today is " + name + "'s Birthday!"
                  && n.message == "Today is " + name + "'s birthday. Wish them a happy birthday!")
            && (!b.isToday ==>
                  && n.priority == LOW
                  && n.title == "\U{1F382} Upcoming Birthday \U{2014} " + name
                  && n.message == name + "'s birthday is in " + Decimal(b.daysUntil) +
                                  if b.daysUntil == 1 then " day." else " days.")
  {
    var name := b.firstName + " " + b.lastName;
    hide IsoDay, Decimal;
    Regroup("\U{1F382} Today is ", b.firstName, b.lastName, "'s Birthday!");
    Regroup("Today is ", b.firstName, b.lastName, "'s birthday. Wish them a happy birthday!");
    assert "\U{1F382} Upcoming Birthday \U{2014} " + b.firstName + " " + b.lastName ==
           "\U{1F382} Upcoming Birthday \U{2014} " + name;
    var d := Decimal(b.daysUntil);
    assert name + "'s birthday is in " + d + " day" + "" + "." == name + "'s birthday is in " + d + " day.";
    assert name + "'s birthday is in " + d + " day" + "s" + "." == name + "'s birthday is in " + d + " days.";
  }

  lemma Regroup(before: string, firstName: string, lastName: string, after: string)
    ensures before + firstName + " " + lastName + after == before + (firstName + " " + lastName) + after
  {
  }

  // ---- The job ----

  predicate AlreadySent(table: seq<Notification>, tenantId: Id, userId: Id, sourceId: string) {
    exists n <- table :: n.tenantId == tenantId && n.userId == userId && n.sourceId == Some(sourceId)
  }

  function Recipients(users: seq<Person>, tenantId: Id): seq<Id> {
    if users == [] then []
    else
      var p := users[|users| - 1];
      Recipients(users[..|users| - 1], tenantId) + if p.tenantId == tenantId then [p.id] else []
  }

  /** One run of the job: whom it is for, when, and at which pairs of birthday person and recipient the
      database raises an error, which the job logs and passes over. */
  datatype Batch = Batch(tenantId: Id, day: int, failing: set<(Id, Id)>)

  /** The row, if any, that one turn of the inner loop inserts. */
  function RowFor(table: seq<Notification>, batch: Batch, b: UpcomingBirthday, recipient: Id): seq<Notification>
    requires 0 <= b.daysUntil
  {
    if recipient == b.id || (b.id, recipient) in batch.failing
       || AlreadySent(table, batch.tenantId, recipient, SourceId(b.id, batch.day))
    then [] else [Announcement(batch.tenantId, recipient, b, batch.day)]
  }

  function NotifyAll(table: seq<Notification>, batch: Batch, b: UpcomingBirthday, recipients: seq<Id>)
    : seq<Notification>
    requires 0 <= b.daysUntil
    decreases |recipients|
  {
    if recipients == [] then table
    else
      var n := |recipients| - 1;
      var before := NotifyAll(table, batch, b, recipients[..n]);
      before + RowFor(before, batch, b, recipients[n])
  }

  predicate Ahead(upcoming: seq<UpcomingBirthday>) {
    forall b <- upcoming :: 0 <= b.daysUntil
  }

  function SendAll(table: seq<Notification>, batch: Batch, upcoming: seq<UpcomingBirthday>, recipients: seq<Id>)
    : seq<Notification>
    requires Ahead(upcoming)
    decreases |upcoming|
  {
    if upcoming == [] then table
    else
      var n := |upcoming| - 1;
      NotifyAll(SendAll(table, batch, upcoming[..n], recipients), batch, upcoming[n], recipients)
  }

  lemma {:induction false} NobodyIsBehind(born: seq<Person>, today: int, windowDays: int)
    requires forall p <- born :: p.dateOfBirth.Some?
    ensures Ahead(UpcomingOf(born, today, windowDays))
  {
    hide NextOccurrence;
    if born != [] {
      NobodyIsBehind(born[..|born| - 1], today, windowDays);
    }
  }

  function UpcomingNow(users: seq<Person>, tenantId: Id, day: int): (upcoming: seq<UpcomingBirthday>)
    ensures Ahead(upcoming)
  {
    NobodyIsBehind(Born(users, tenantId), day, WINDOW_DAYS);
    Upcoming(users, tenantId, day, WINDOW_DAYS)
  }

  /** The job's own list, for the next seven days, is right about everyone on every day from the year 100 on. */
  lemma UpcomingNowIsExact(users: seq<Person>, tenantId: Id, day: int)
    requires !TwoDigitYear(day)
    ensures ListsExactly(UpcomingNow(users, tenantId, day), users, tenantId, day, 7)
  {
    hide Misread, ListsExactly, Upcoming, TwoDigitYear;
    UpcomingIsExact(users, tenantId, day, WINDOW_DAYS);
    forall p | p in users && p.tenantId == tenantId && p.dateOfBirth.Some?
      ensures !Misread(p.dateOfBirth.value, day, WINDOW_DAYS)
    {
      ShortWindowsMisreadNobody(p.dateOfBirth.value, day, WINDOW_DAYS);
    }
  }

  /** The notifications table after a run of the job. */
  function AfterJob(table: seq<Notification>, users: seq<Person>, batch: Batch): seq<Notification> {
    SendAll(table, batch, UpcomingNow(users, batch.tenantId, batch.day), Recipients(users, batch.tenantId))
  }

  lemma NotifyNone(table: seq<Notification>, batch: Batch, b: UpcomingBirthday)
    requires 0 <= b.daysUntil
    ensures NotifyAll(table, batch, b, []) == table
  {
  }

  lemma SendNone(table: seq<Notification>, batch: Batch, recipients: seq<Id>)
    ensures SendAll(table, batch, [], recipients) == table
  {
  }

  lemma NotifyNext(table: seq<Notification>, batch: Batch, b: UpcomingBirthday, recipients: seq<Id>, j: nat)
    requires 0 <= b.daysUntil && j < |recipients|
    ensures NotifyAll(table, batch, b, recipients[..j + 1]) ==
            var before := NotifyAll(table, batch, b, recipients[..j]);
            before + RowFor(before, batch, b, recipients[j])
  {
    assert recipients[..j + 1][..j] == recipients[..j];
  }

  lemma SendNext(table: seq<Notification>, batch: Batch, upcoming: seq<UpcomingBirthday>, recipients: seq<Id>, i: nat)
    requires Ahead(upcoming) && i < |upcoming|
    ensures SendAll(table, batch, upcoming[..i + 1], recipients) ==
            NotifyAll(SendAll(table, batch, upcoming[..i], recipients), batch, upcoming[i], recipients)
  {
    assert upcoming[..i + 1][..i] == upcoming[..i];
  }

  lemma AfterJobIs(table: seq<Notification>, users: seq<Person>, batch: Batch)
    ensures AfterJob(table, users, batch) ==
            SendAll(table, batch, UpcomingNow(users, batch.tenantId, batch.day), Recipients(users, batch.tenantId))
  {
  }

  class BirthdayJob {
    var users: seq<Person>
    var notifications: seq<Notification>

    method SendBirthdayNotifications(batch: Batch) returns (notified: int)
      modifies this`notifications
      ensures notifications == AfterJob(old(notifications), users, batch)
      ensures notified == |notifications| - |old(notifications)|
    {
      var tenantId, day := batch.tenantId, batch.day;
      var upcoming := GetUpcomingBirthdays(users, tenantId, day, WINDOW_DAYS);
      NobodyIsBehind(Born(users, tenantId), day, WINDOW_DAYS);
      if |upcoming| == 0 {
        return 0;
      }
      var recipients := Recipients(users, tenantId);
      assert Ahead(upcoming) && upcoming == UpcomingNow(users, tenantId, day);
      hide UpcomingNow, Upcoming, Recipients, RowFor, AfterJob, SendAll, NotifyAll;
      notified := 0;
      SendNone(notifications, batch, recipients);
      for i := 0 to |upcoming|
        invariant notifications == SendAll(old(notifications), batch, upcoming[..i], recipients)
        invariant notified == |notifications| - |old(notifications)|
      {
        var b := upcoming[i];
        assert b in upcoming;
        ghost var before := notifications;
        NotifyNone(notifications, batch, b);
        for j := 0 to |recipients|
          invariant notifications == NotifyAll(before, batch, b, recipients[..j])
          invariant notified == |notifications| - |old(notifications)|
        {
          NotifyNext(before, batch, b, recipients, j);
          var sent := Notify(batch, b, recipients[j]);
          if sent {
            notified := notified + 1;
          }
        }
        assert recipients[..|recipients|] == recipients;
        SendNext(old(notifications), batch, upcoming, recipients, i);
      }
      assert upcoming[..|upcoming|] == upcoming;
      AfterJobIs(old(notifications), users, batch);
    }

    method Notify(batch: Batch, b: UpcomingBirthday, recipient: Id) returns (sent: bool)
      requires 0 <= b.daysUntil
      modifies this`notifications
      ensures notifications == old(notifications) + RowFor(old(notifications), batch, b, recipient)
      ensures |notifications| == |old(notifications)| + if sent then 1 else 0
    {
      if recipient == b.id || (b.id, recipient) in batch.failing {
        return false;
      }
      if AlreadySent(notifications, batch.tenantId, recipient, SourceId(b.id, batch.day)) {
        return false;
      }
      notifications := notifications + [Announcement(batch.tenantId, recipient, b, batch.day)];
      return true;
    }
  }

  // ---- What a run inserts ----

  predicate SameKey(m: Notification, n: Notification) {
    m.tenantId == n.tenantId && m.userId == n.userId && m.sourceId == n.sourceId
  }

  /** Row k announces one of these birthdays to someone else, and is the first with its key. */
  predicate Rightly(table: seq<Notification>, k: nat, batch: Batch, upcoming: seq<UpcomingBirthday>,
      recipients: seq<Id>)
    requires k < |table| && Ahead(upcoming)
  {
    && (forall j :: 0 <= j < k ==> !SameKey(table[j], table[k]))
    && exists b <- upcoming, r <- recipients ::
         r != b.id && (b.id, r) !in batch.failing && table[k] == Announcement(batch.tenantId, r, b, batch.day)
  }

  /** after extends before by rows that are all inserted rightly. */
  predicate Extends(
    before: seq<Notification>, after: seq<Notification>, batch: Batch, upcoming: seq<UpcomingBirthday>,
    recipients: seq<Id>)
    requires Ahead(upcoming)
  {
    before <= after && forall k :: |before| <= k < |after| ==> Rightly(after, k, batch, upcoming, recipients)
  }

  lemma ExtendsItself(table: seq<Notification>, batch: Batch, upcoming: seq<UpcomingBirthday>, recipients: seq<Id>)
    requires Ahead(upcoming)
    ensures Extends(table, table, batch, upcoming, recipients)
  {
  }

  lemma ExtendByRow(table: seq<Notification>, after: seq<Notification>, batch: Batch, upcoming: seq<UpcomingBirthday>,
                    recipients: seq<Id>, b: UpcomingBirthday, r: Id)
    requires Ahead(upcoming) && b in upcoming && r in recipients
    requires Extends(table, after, batch, upcoming, recipients)
    ensures Extends(table, after + RowFor(after, batch, b, r), batch, upcoming, recipients)
  {
    hide SourceId, Title, Message;
    var more := after + RowFor(after, batch, b, r);
    forall k | |table| <= k < |more|
      ensures Rightly(more, k, batch, upcoming, recipients)
    {
      if k < |after| {
        assert Rightly(after, k, batch, upcoming, recipients);
      } else {
        assert k == |after| && more[k] == Announcement(batch.tenantId, r, b, batch.day);
        assert forall j :: 0 <= j < k ==> more[j] in after;
      }
    }
  }

  lemma {:induction false} NotifyAllExtends(
    table: seq<Notification>, now: seq<Notification>, batch: Batch, b: UpcomingBirthday, rs: seq<Id>,
    upcoming: seq<UpcomingBirthday>, recipients: seq<Id>)
    requires Ahead(upcoming) && b in upcoming && (forall r <- rs :: r in recipients)
    requires Extends(table, now, batch, upcoming, recipients)
    ensures Extends(table, NotifyAll(now, batch, b, rs), batch, upcoming, recipients)
    decreases |rs|
  {
    hide Extends, RowFor;
    if rs != [] {
      var n := |rs| - 1;
      NotifyAllExtends(table, now, batch, b, rs[..n], upcoming, recipients);
      ExtendByRow(table, NotifyAll(now, batch, b, rs[..n]), batch, upcoming, recipients, b, rs[n]);
    }
  }

  lemma {:induction false} SendAllExtends(
    table: seq<Notification>, batch: Batch, bs: seq<UpcomingBirthday>, upcoming: seq<UpcomingBirthday>,
    recipients: seq<Id>)
    requires Ahead(upcoming) && Ahead(bs) && forall b <- bs :: b in upcoming
    ensures Extends(table, SendAll(table, batch, bs, recipients), batch, upcoming, recipients)
    decreases |bs|
  {
    if bs != [] {
      hide Extends;
      var n := |bs| - 1;
      SendAllExtends(table, batch, bs[..n], upcoming, recipients);
      NotifyAllExtends(table, SendAll(table, batch, bs[..n], recipients), batch, bs[n], recipients, upcoming,
        recipients);
    }
  }

  /** Everyone else has been told of b, but for those the database failed for. */
  predicate Told(table: seq<Notification>, batch: Batch, b: UpcomingBirthday, recipients: seq<Id>) {
    forall r <- recipients :: r != b.id && (b.id, r) !in batch.failing ==>
                                AlreadySent(table, batch.tenantId, r, SourceId(b.id, batch.day))
  }

  lemma SentStaysSent(table: seq<Notification>, more: seq<Notification>, tenantId: Id, userId: Id, sourceId: string)
    requires AlreadySent(table, tenantId, userId, sourceId)
    ensures AlreadySent(table + more, tenantId, userId, sourceId)
  {
    var n :| n in table && n.tenantId == tenantId && n.userId == userId && n.sourceId == Some(sourceId);
    assert n in table + more;
  }

  lemma RowForTells(table: seq<Notification>, batch: Batch, b: UpcomingBirthday, r: Id)
    requires 0 <= b.daysUntil && r != b.id && (b.id, r) !in batch.failing
    ensures AlreadySent(table + RowFor(table, batch, b, r), batch.tenantId, r, SourceId(b.id, batch.day))
  {
    hide SourceId, Title, Message;
    var sourceId := SourceId(b.id, batch.day);
    if AlreadySent(table, batch.tenantId, r, sourceId) {
      SentStaysSent(table, RowFor(table, batch, b, r), batch.tenantId, r, sourceId);
    } else {
      assert Announcement(batch.tenantId, r, b, batch.day) in table + RowFor(table, batch, b, r);
    }
  }

  lemma {:induction false} NotifyAllTells(table: seq<Notification>, batch: Batch, b: UpcomingBirthday,
      recipients: seq<Id>)
    requires 0 <= b.daysUntil
    ensures Told(NotifyAll(table, batch, b, recipients), batch, b, recipients)
    decreases |recipients|
  {
    hide AlreadySent, SourceId, RowFor;
    if recipients != [] {
      var n := |recipients| - 1;
      var before := NotifyAll(table, batch, b, recipients[..n]);
      NotifyAllTells(table, batch, b, recipients[..n]);
      forall r | r in recipients && r != b.id && (b.id, r) !in batch.failing
        ensures AlreadySent(NotifyAll(table, batch, b, recipients), batch.tenantId, r, SourceId(b.id, batch.day))
      {
        if r in recipients[..n] {
          SentStaysSent(before, RowFor(before, batch, b, recipients[n]), batch.tenantId, r, SourceId(b.id, batch.day));
        } else {
          assert r == recipients[n];
          RowForTells(before, batch, b, r);
        }
      }
    }
  }

  lemma ToldStays(table: seq<Notification>, after: seq<Notification>, batch: Batch, b: UpcomingBirthday,
      recipients: seq<Id>)
    requires Told(table, batch, b, recipients) && table <= after
    ensures Told(after, batch, b, recipients)
  {
    hide AlreadySent, SourceId;
    forall r | r in recipients && r != b.id && (b.id, r) !in batch.failing
      ensures AlreadySent(after, batch.tenantId, r, SourceId(b.id, batch.day))
    {
      SentStaysSent(table, after[|table|..], batch.tenantId, r, SourceId(b.id, batch.day));
      assert table + after[|table|..] == after;
    }
  }

  lemma {:induction false} NotifyAllGrows(table: seq<Notification>, batch: Batch, b: UpcomingBirthday,
      recipients: seq<Id>)
    requires 0 <= b.daysUntil
    ensures table <= NotifyAll(table, batch, b, recipients)
    decreases |recipients|
  {
    hide RowFor;
    if recipients != [] {
      NotifyAllGrows(table, batch, b, recipients[..|recipients| - 1]);
    }
  }

  lemma {:induction false} SendAllTells(
    table: seq<Notification>, batch: Batch, upcoming: seq<UpcomingBirthday>, recipients: seq<Id>)
    requires Ahead(upcoming)
    ensures forall b <- upcoming :: Told(SendAll(table, batch, upcoming, recipients), batch, b, recipients)
    decreases |upcoming|
  {
    hide Told, NotifyAll;
    if upcoming != [] {
      var n := |upcoming| - 1;
      var before := SendAll(table, batch, upcoming[..n], recipients);
      var after := SendAll(table, batch, upcoming, recipients);
      SendAllTells(table, batch, upcoming[..n], recipients);
      NotifyAllTells(before, batch, upcoming[n], recipients);
      NotifyAllGrows(before, batch, upcoming[n], recipients);
      forall b | b in upcoming
        ensures Told(after, batch, b, recipients)
      {
        if b in upcoming[..n] {
          ToldStays(before, after, batch, b, recipients);
        } else {
          assert b == upcoming[n];
        }
      }
    }
  }

  /** What one run of the job does: it only appends; every row it appends announces an upcoming birthday to
      another user of the tenant and is the first with its key; and when it is done, everyone whom the
      database did not fail for has been told of every upcoming birthday. */
  lemma JobIsExact(table: seq<Notification>, users: seq<Person>, batch: Batch)
    ensures var upcoming := UpcomingNow(users, batch.tenantId, batch.day);
            var recipients := Recipients(users, batch.tenantId);
            var after := AfterJob(table, users, batch);
            && Extends(table, after, batch, upcoming, recipients)
            && forall b <- upcoming :: Told(after, batch, b, recipients)
  {
    hide Extends, Told, SendAll;
    var upcoming, recipients := UpcomingNow(users, batch.tenantId, batch.day), Recipients(users, batch.tenantId);
    SendAllExtends(table, batch, upcoming, upcoming, recipients);
    SendAllTells(table, batch, upcoming, recipients);
  }

  // ---- At most once, however often it runs ----

  datatype Event = RunJob(batch: Batch) | OtherNotification(row: Notification) | ChangeUsers(users: seq<Person>)

  datatype State = State(table: seq<Notification>, users: seq<Person>)

  predicate IsBirthdaySource(sourceId: Option<string>) {
    sourceId.Some? && SOURCE_PREFIX <= sourceId.value
  }

  /** Every other notification is about a leave request: its source is a uuid, or missing. */
  function Next(s: State, e: Event): State {
    match e
    case RunJob(batch) => s.(table := AfterJob(s.table, s.users, batch))
    case OtherNotification(row) => if IsBirthdaySource(row.sourceId) then s else s.(table := s.table + [row])
    case ChangeUsers(users) => s.(users := users)
  }

  function Run(s: State, events: seq<Event>): State {
    if events == [] then s else Next(Run(s, events[..|events| - 1]), events[|events| - 1])
  }

  /** No recipient has two notifications with the same birthday source: one per person and day. */
  predicate Once(table: seq<Notification>) {
    forall j, k :: 0 <= j < k < |table| && IsBirthdaySource(table[k].sourceId) ==> !SameKey(table[j], table[k])
  }

  ghost predicate NoneToSelf(table: seq<Notification>) {
    forall n <- table, id: Id, day: int :: n.sourceId == Some(SourceId(id, day)) ==> n.userId != id
  }

  lemma JobNotifiesOnce(table: seq<Notification>, users: seq<Person>, batch: Batch)
    requires Once(table) && NoneToSelf(table)
    ensures Once(AfterJob(table, users, batch)) && NoneToSelf(AfterJob(table, users, batch))
  {
    JobIsExact(table, users, batch);
    hide AfterJob, UpcomingNow, Recipients, Extends, Once, NoneToSelf;
    var upcoming, recipients := UpcomingNow(users, batch.tenantId, batch.day), Recipients(users, batch.tenantId);
    ExtendingKeepsOnce(table, AfterJob(table, users, batch), batch, upcoming, recipients);
    ExtendingTellsOthers(table, AfterJob(table, users, batch), batch, upcoming, recipients);
  }

  lemma ExtendingKeepsOnce(table: seq<Notification>, after: seq<Notification>, batch: Batch,
                           upcoming: seq<UpcomingBirthday>, recipients: seq<Id>)
    requires Ahead(upcoming) && Extends(table, after, batch, upcoming, recipients) && Once(table)
    ensures Once(after)
  {
    hide IsBirthdaySource, Announcement;
    forall j, k | 0 <= j < k < |after| && IsBirthdaySource(after[k].sourceId)
      ensures !SameKey(after[j], after[k])
    {
      if |table| <= k {
        assert Rightly(after, k, batch, upcoming, recipients);
      } else {
        assert after[j] == table[j] && after[k] == table[k];
      }
    }
  }

  lemma ExtendingTellsOthers(table: seq<Notification>, after: seq<Notification>, batch: Batch,
                             upcoming: seq<UpcomingBirthday>, recipients: seq<Id>)
    requires Ahead(upcoming) && Extends(table, after, batch, upcoming, recipients) && NoneToSelf(table)
    ensures NoneToSelf(after)
  {
    hide SourceId, Announcement;
    forall n, id: Id, day: int | n in after && n.sourceId == Some(SourceId(id, day))
      ensures n.userId != id
    {
      var k :| 0 <= k < |after| && after[k] == n;
      if k < |table| {
        assert table[k] == n && n in table;
      } else {
        var b, r := Inserted(after, k, batch, upcoming, recipients);
        SourceIdInjective(id, day, b.id, batch.day);
      }
    }
  }

  lemma Inserted(table: seq<Notification>, k: nat, batch: Batch, upcoming: seq<UpcomingBirthday>, recipients: seq<Id>)
    returns (b: UpcomingBirthday, r: Id)
    requires Ahead(upcoming) && k < |table| && Rightly(table, k, batch, upcoming, recipients)
    ensures b in upcoming && r in recipients && r != b.id
    ensures table[k].tenantId == batch.tenantId && table[k].userId == r
    ensures table[k].sourceId == Some(SourceId(b.id, batch.day))
  {
    hide Announcement;
    b, r :| b in upcoming && r in recipients && r != b.id && table[k] == Announcement(batch.tenantId, r, b, batch.day);
    AnnouncementKey(batch.tenantId, r, b, batch.day);
  }

  lemma BirthdaySources(id: Id, day: int)
    ensures IsBirthdaySource(Some(SourceId(id, day)))
  {
    assert SourceId(id, day)[..|SOURCE_PREFIX|] == SOURCE_PREFIX;
  }

  /** However often the job runs, over whatever changes to the users and whichever failures: at most one
      notification per recipient, birthday person and day, and never one to the person themselves. */
  lemma {:induction false} RunsNotifyOnce(s: State, events: seq<Event>)
    requires Once(s.table) && NoneToSelf(s.table)
    ensures Once(Run(s, events).table) && NoneToSelf(Run(s, events).table)
  {
    if events != [] {
      var before, last := Run(s, events[..|events| - 1]), events[|events| - 1];
      RunsNotifyOnce(s, events[..|events| - 1]);
      match last
      case RunJob(batch) => JobNotifiesOnce(before.table, before.users, batch);
      case OtherNotification(row) =>
        forall id: Id, day: int
          ensures Some(SourceId(id, day)) != row.sourceId || IsBirthdaySource(row.sourceId)
        {
          BirthdaySources(id, day);
        }
      case ChangeUsers(_) =>
    }
  }

  // ---- How many ----

  /** Nobody of the tenant has been told of any birthday on that day. */
  ghost predicate Untold(table: seq<Notification>, tenantId: Id, day: int) {
    forall n <- table, id: Id :: n.tenantId == tenantId ==> n.sourceId != Some(SourceId(id, day))
  }

  predicate Distinct(ids: seq<Id>) {
    forall j, k :: 0 <= j < k < |ids| ==> ids[j] != ids[k]
  }

  predicate DistinctUsers(users: seq<Person>) {
    forall j, k :: 0 <= j < k < |users| ==> users[j].id != users[k].id
  }

  /** What has been sent only since before is about one of these birthdays, and to one of these recipients. */
  lemma SentSince(before: seq<Notification>, after: seq<Notification>, batch: Batch, upcoming: seq<UpcomingBirthday>,
                  recipients: seq<Id>, userId: Id, id: Id)
    requires Ahead(upcoming) && Extends(before, after, batch, upcoming, recipients)
    requires AlreadySent(after, batch.tenantId, userId, SourceId(id, batch.day))
    requires !AlreadySent(before, batch.tenantId, userId, SourceId(id, batch.day))
    ensures userId in recipients && exists b <- upcoming :: b.id == id
  {
    hide SourceId, Announcement;
    var n :| n in after && n.tenantId == batch.tenantId && n.userId == userId &&
        n.sourceId == Some(SourceId(id, batch.day));
    var k :| 0 <= k < |after| && after[k] == n;
    assert forall j :: 0 <= j < |before| ==> before[j] in before;
    assert |before| <= k;
    var b, r := Inserted(after, k, batch, upcoming, recipients);
    SourceIdInjective(id, batch.day, b.id, batch.day);
  }

  lemma NotYetReached(table: seq<Notification>, batch: Batch, b: UpcomingBirthday, recipients: seq<Id>, r: Id)
    requires 0 <= b.daysUntil && r !in recipients
    requires !AlreadySent(table, batch.tenantId, r, SourceId(b.id, batch.day))
    ensures !AlreadySent(NotifyAll(table, batch, b, recipients), batch.tenantId, r, SourceId(b.id, batch.day))
  {
    hide AlreadySent, SourceId, Extends, NotifyAll;
    assert Extends(table, table, batch, [b], recipients) by { ExtendsItself(table, batch, [b], recipients); }
    NotifyAllExtends(table, table, batch, b, recipients, [b], recipients);
    if AlreadySent(NotifyAll(table, batch, b, recipients), batch.tenantId, r, SourceId(b.id, batch.day)) {
      SentSince(table, NotifyAll(table, batch, b, recipients), batch, [b], recipients, r, b.id);
    }
  }

  lemma {:induction false} NotifyAllCount(table: seq<Notification>, batch: Batch, b: UpcomingBirthday,
      recipients: seq<Id>)
    requires 0 <= b.daysUntil && batch.failing == {} && Distinct(recipients)
    requires forall r <- recipients :: !AlreadySent(table, batch.tenantId, r, SourceId(b.id, batch.day))
    ensures |NotifyAll(table, batch, b, recipients)| == |table| + |recipients| - if b.id in recipients then 1 else 0
    decreases |recipients|
  {
    hide AlreadySent, SourceId, Announcement;
    if recipients != [] {
      var n := |recipients| - 1;
      var rest, r := recipients[..n], recipients[n];
      assert recipients == rest + [r] && r !in rest;
      NotifyAllCount(table, batch, b, rest);
      NotYetReached(table, batch, b, rest, r);
      NotifyNext(table, batch, b, recipients, n);
      hide NotifyAll, Distinct;
      assert recipients[..n + 1] == recipients;
    }
  }

  predicate DistinctBirthdays(upcoming: seq<UpcomingBirthday>) {
    forall j, k :: 0 <= j < k < |upcoming| ==> upcoming[j].id != upcoming[k].id
  }

  lemma NotYetAnnounced(table: seq<Notification>, batch: Batch, upcoming: seq<UpcomingBirthday>, recipients: seq<Id>,
                        id: Id, r: Id)
    requires Ahead(upcoming) && (forall b <- upcoming :: b.id != id)
    requires !AlreadySent(table, batch.tenantId, r, SourceId(id, batch.day))
    ensures !AlreadySent(SendAll(table, batch, upcoming, recipients), batch.tenantId, r, SourceId(id, batch.day))
  {
    hide AlreadySent, SourceId, Extends, SendAll;
    SendAllExtends(table, batch, upcoming, upcoming, recipients);
    if AlreadySent(SendAll(table, batch, upcoming, recipients), batch.tenantId, r, SourceId(id, batch.day)) {
      SentSince(table, SendAll(table, batch, upcoming, recipients), batch, upcoming, recipients, r, id);
    }
  }

  lemma {:induction false} SendAllCount(
    table: seq<Notification>, batch: Batch, upcoming: seq<UpcomingBirthday>, recipients: seq<Id>)
    requires Ahead(upcoming) && batch.failing == {} && Distinct(recipients) && DistinctBirthdays(upcoming)
    requires forall b <- upcoming :: b.id in recipients
    requires forall b <- upcoming, r <- recipients :: !AlreadySent(table, batch.tenantId, r, SourceId(b.id, batch.day))
    ensures |SendAll(table, batch, upcoming, recipients)| == |table| + |upcoming| * (|recipients| - 1)
    decreases |upcoming|
  {
    hide AlreadySent, SourceId, NotifyAll, Distinct;
    if upcoming != [] {
      var n := |upcoming| - 1;
      var rest, b := upcoming[..n], upcoming[n];
      var before := SendAll(table, batch, rest, recipients);
      SendAllCount(table, batch, rest, recipients);
      forall r | r in recipients
        ensures !AlreadySent(before, batch.tenantId, r, SourceId(b.id, batch.day))
      {
        assert !AlreadySent(table, batch.tenantId, r, SourceId(b.id, batch.day));
        NotYetAnnounced(table, batch, rest, recipients, b.id, r);
      }
      NotifyAllCount(before, batch, b, recipients);
      SendNext(table, batch, upcoming, recipients, n);
      hide SendAll, DistinctBirthdays;
      assert upcoming[..n + 1] == upcoming;
      assert (n + 1) * (|recipients| - 1) == n * (|recipients| - 1) + (|recipients| - 1);
    }
  }

  lemma {:induction false} RecipientsAre(users: seq<Person>, tenantId: Id)
    requires DistinctUsers(users)
    ensures Distinct(Recipients(users, tenantId))
    ensures forall r <- Recipients(users, tenantId) :: exists p <- users :: p.id == r && p.tenantId == tenantId
    ensures forall p <- users :: p.tenantId == tenantId ==> p.id in Recipients(users, tenantId)
  {
    if users != [] {
      var n := |users| - 1;
      RecipientsAre(users[..n], tenantId);
      assert users == users[..n] + [users[n]];
      assert users[n].id !in Recipients(users[..n], tenantId);
    }
  }

  lemma {:induction false} BornAreDistinct(users: seq<Person>, tenantId: Id)
    requires DistinctUsers(users)
    ensures DistinctUsers(Born(users, tenantId))
  {
    if users != [] {
      var n := |users| - 1;
      BornAreDistinct(users[..n], tenantId);
      forall p | p in Born(users[..n], tenantId)
        ensures p.id != users[n].id
      {
        assert p in users[..n];
      }
    }
  }

  lemma {:induction false} EntriesAreDistinct(born: seq<Person>, day: int, windowDays: int)
    requires DistinctUsers(born) && forall p <- born :: p.dateOfBirth.Some?
    ensures DistinctBirthdays(UpcomingOf(born, day, windowDays))
    ensures forall b <- UpcomingOf(born, day, windowDays) :: exists p <- born :: p.id == b.id
  {
    hide InWindow, NextOccurrence;
    if born != [] {
      var n := |born| - 1;
      EntriesAreDistinct(born[..n], day, windowDays);
      forall b | b in UpcomingOf(born[..n], day, windowDays)
        ensures b.id != born[n].id && exists p <- born :: p.id == b.id
      {
        var p :| p in born[..n] && p.id == b.id;
        assert p in born;
      }
      assert born[n] in born;
    }
  }

  lemma BirthdaysAreDistinct(users: seq<Person>, tenantId: Id, day: int, windowDays: int)
    requires DistinctUsers(users)
    ensures DistinctBirthdays(Upcoming(users, tenantId, day, windowDays))
    ensures forall b <- Upcoming(users, tenantId, day, windowDays) ::
              exists p <- users :: p.id == b.id && p.tenantId == tenantId
  {
    var born := Born(users, tenantId);
    BornAreDistinct(users, tenantId);
    EntriesAreDistinct(born, day, windowDays);
    hide UpcomingOf, DistinctUsers, DistinctBirthdays, Born;
    forall b | b in Upcoming(users, tenantId, day, windowDays)
      ensures exists p <- users :: p.id == b.id && p.tenantId == tenantId
    {
      var p :| p in born && p.id == b.id;
      assert p in users;
    }
  }

  /** The first run of a day tells each user of the tenant of every upcoming birthday but their own. */
  lemma FirstRunCount(table: seq<Notification>, users: seq<Person>, batch: Batch)
    requires DistinctUsers(users) && batch.failing == {} && Untold(table, batch.tenantId, batch.day)
    ensures |AfterJob(table, users, batch)| ==
            |table| + |UpcomingNow(users, batch.tenantId, batch.day)| * (|Recipients(users, batch.tenantId)| - 1)
  {
    hide SourceId, Upcoming, Recipients, Untold, SendAll, AlreadySent, DistinctUsers, Distinct, DistinctBirthdays;
    var upcoming, recipients := UpcomingNow(users, batch.tenantId, batch.day), Recipients(users, batch.tenantId);
    RecipientsAre(users, batch.tenantId);
    BirthdaysAreDistinct(users, batch.tenantId, batch.day, WINDOW_DAYS);
    forall b, r | b in upcoming && r in recipients
      ensures !AlreadySent(table, batch.tenantId, r, SourceId(b.id, batch.day))
    {
      UntoldIsUnsent(table, batch.tenantId, batch.day, r, b.id);
    }
    SendAllCount(table, batch, upcoming, recipients);
  }

  lemma UntoldIsUnsent(table: seq<Notification>, tenantId: Id, day: int, userId: Id, id: Id)
    requires Untold(table, tenantId, day)
    ensures !AlreadySent(table, tenantId, userId, SourceId(id, day))
  {
    hide SourceId;
  }

  /** A run leaves the following days untold: the next day's first run tells everyone again. */
  lemma OtherDaysStayUntold(table: seq<Notification>, users: seq<Person>, batch: Batch, day: int)
    requires 0 <= YearOf(batch.day) <= 9999 && 0 <= YearOf(day) <= 9999 && day != batch.day
    requires Untold(table, batch.tenantId, day)
    ensures Untold(AfterJob(table, users, batch), batch.tenantId, day)
  {
    hide SourceId, AfterJob, UpcomingNow, Recipients, YearOf, Told;
    JobIsExact(table, users, batch);
    var upcoming, recipients := UpcomingNow(users, batch.tenantId, batch.day), Recipients(users, batch.tenantId);
    var after := AfterJob(table, users, batch);
    forall n, id: Id | n in after && n.tenantId == batch.tenantId
      ensures n.sourceId != Some(SourceId(id, day))
    {
      var k :| 0 <= k < |after| && after[k] == n;
      if k < |table| {
        assert table[k] == n && n in table;
      } else if n.sourceId == Some(SourceId(id, day)) {
        var b, r := Inserted(after, k, batch, upcoming, recipients);
        SourceIdInjective(id, day, b.id, batch.day);
        IsoDayInjective(day, batch.day);
        assert false;
      }
    }
  }

  lemma {:induction false} NothingLeftToNotify(table: seq<Notification>, batch: Batch, b: UpcomingBirthday, rs: seq<Id>)
    requires 0 <= b.daysUntil && Told(table, batch, b, rs)
    ensures NotifyAll(table, batch, b, rs) == table
    decreases |rs|
  {
    hide AlreadySent, SourceId, Announcement;
    if rs != [] {
      NothingLeftToNotify(table, batch, b, rs[..|rs| - 1]);
    }
  }

  lemma {:induction false} NothingLeftToSend(
    table: seq<Notification>, batch: Batch, upcoming: seq<UpcomingBirthday>, recipients: seq<Id>)
    requires Ahead(upcoming) && forall b <- upcoming :: Told(table, batch, b, recipients)
    ensures SendAll(table, batch, upcoming, recipients) == table
    decreases |upcoming|
  {
    hide Told, NotifyAll;
    if upcoming != [] {
      var n := |upcoming| - 1;
      NothingLeftToSend(table, batch, upcoming[..n], recipients);
      NothingLeftToNotify(table, batch, upcoming[n], recipients);
    }
  }

  /** Running the job again on the same day adds nothing, unless a failure of the first run has gone away. */
  lemma RerunAddsNothing(table: seq<Notification>, users: seq<Person>, batch: Batch, again: Batch)
    requires again.tenantId == batch.tenantId && again.day == batch.day && batch.failing <= again.failing
    ensures var once := AfterJob(table, users, batch); AfterJob(once, users, again) == once
  {
    hide UpcomingNow, Recipients, AlreadySent, SourceId, Extends, SendAll;
    JobIsExact(table, users, batch);
    var once := AfterJob(table, users, batch);
    var upcoming, recipients := UpcomingNow(users, batch.tenantId, batch.day), Recipients(users, batch.tenantId);
    forall b | b in upcoming
      ensures Told(once, again, b, recipients)
    {
      assert Told(once, batch, b, recipients);
    }
    NothingLeftToSend(once, again, upcoming, recipients);
  }
}
