/** Overlapping runs of the birthday job. The check and the insert of each row are two awaits, no unique key backs
    them, and the scheduler does not wait for the last run: any number of runs may be under way at once. */
module BirthdayRaces {
  import opened LeaveTypes
  import opened Birthdays
  import opened BirthdayNotifications

  /** A run of the job: the rows it has yet to see to, in order. Once checked, it has found no row with the key of
      the first one, and inserts that one next. */
  datatype Worker = Worker(todo: seq<Notification>, checked: bool)

  datatype Store = Store(table: seq<Notification>, workers: seq<Worker>)

  /** A step that fails is an error of the database, which the run logs before it goes on to its next row. */
  datatype Happening =
    | Start(users: seq<Person>, tenantId: Id, day: int)
    | Proceed(worker: nat, fails: bool)
    | Elsewhere(row: Notification)

  // ---- What a run goes through ----

  function RowsAbout(b: UpcomingBirthday, recipients: seq<Id>, tenantId: Id, day: int): seq<Notification>
    requires 0 <= b.daysUntil
  {
    if recipients == [] then []
    else
      var n := |recipients| - 1;
      RowsAbout(b, recipients[..n], tenantId, day) +
      if recipients[n] == b.id then [] else [Announcement(tenantId, recipients[n], b, day)]
  }

  function RowsAboutAll(upcoming: seq<UpcomingBirthday>, recipients: seq<Id>, tenantId: Id, day: int): seq<Notification>
    requires Ahead(upcoming)
  {
    if upcoming == [] then []
    else
      var n := |upcoming| - 1;
      RowsAboutAll(upcoming[..n], recipients, tenantId, day) + RowsAbout(upcoming[n], recipients, tenantId, day)
  }

  /** The nested loops, unrolled: who is to be told of whom. */
  function ToSend(users: seq<Person>, tenantId: Id, day: int): seq<Notification> {
    RowsAboutAll(UpcomingNow(users, tenantId, day), Recipients(users, tenantId), tenantId, day)
  }

  // ---- Steps ----

  predicate KeySent(table: seq<Notification>, row: Notification) {
    exists n <- table :: SameKey(n, row)
  }

  function Advance(s: Store, i: nat, fails: bool): Store
    requires i < |s.workers| && s.workers[i].todo != []
  {
    var w := s.workers[i];
    if w.checked then
      Store(if fails then s.table else s.table + [w.todo[0]], s.workers[i := Worker(w.todo[1..], false)])
    else if fails || KeySent(s.table, w.todo[0]) then
      s.(workers := s.workers[i := Worker(w.todo[1..], false)])
    else
      s.(workers := s.workers[i := Worker(w.todo, true)])
  }

  function After(s: Store, e: Happening): Store {
    match e
    case Start(users, tenantId, day) => s.(workers := s.workers + [Worker(ToSend(users, tenantId, day), false)])
    case Proceed(i, fails) => if i < |s.workers| && s.workers[i].todo != [] then Advance(s, i, fails) else s
    case Elsewhere(row) => if IsBirthdaySource(row.sourceId) then s else s.(table := s.table + [row])
  }

  function Course(s: Store, events: seq<Happening>): Store {
    if events == [] then s else After(Course(s, events[..|events| - 1]), events[|events| - 1])
  }

  /** The worker's row, if the event inserts one. */
  predicate Inserts(s: Store, e: Happening) {
    e.Proceed? && e.worker < |s.workers| && s.workers[e.worker].checked && s.workers[e.worker].todo != [] && !e.fails
  }

  /** Two runs insert a row with the same key, and both were past their check when the first of them did. */
  predicate Race(s: Store, events: seq<Happening>, j: nat, k: nat) {
    && j < k < |events|
    && var before, later := Course(s, events[..j]), Course(s, events[..k]);
    && Inserts(before, events[j]) && Inserts(later, events[k])
    && var a, b := events[j].worker, events[k].worker;
    && a != b && b < |before.workers| && before.workers[b] == later.workers[b]
    && SameKey(before.workers[a].todo[0], before.workers[b].todo[0])
  }

  // ---- Invariants ----

  predicate AboutBirthdays(rows: seq<Notification>) {
    forall row <- rows :: IsBirthdaySource(row.sourceId)
  }

  predicate WorkersInv(s: Store) {
    forall w <- s.workers :: AboutBirthdays(w.todo) && (w.checked ==> w.todo != [])
  }

  lemma {:induction false} RowsAboutBirthdays(b: UpcomingBirthday, recipients: seq<Id>, tenantId: Id, day: int)
    requires 0 <= b.daysUntil
    ensures AboutBirthdays(RowsAbout(b, recipients, tenantId, day))
  {
    hide SourceId, Announcement, IsBirthdaySource;
    if recipients != [] {
      var n := |recipients| - 1;
      RowsAboutBirthdays(b, recipients[..n], tenantId, day);
      AnnouncementKey(tenantId, recipients[n], b, day);
      BirthdaySources(b.id, day);
    }
  }

  lemma {:induction false} AllAboutBirthdays(upcoming: seq<UpcomingBirthday>, recipients: seq<Id>, tenantId: Id,
      day: int)
    requires Ahead(upcoming)
    ensures AboutBirthdays(RowsAboutAll(upcoming, recipients, tenantId, day))
  {
    hide IsBirthdaySource, RowsAbout;
    if upcoming != [] {
      var n := |upcoming| - 1;
      AllAboutBirthdays(upcoming[..n], recipients, tenantId, day);
      RowsAboutBirthdays(upcoming[n], recipients, tenantId, day);
    }
  }

  lemma StepKeepsWorkers(s: Store, e: Happening)
    requires WorkersInv(s)
    ensures WorkersInv(After(s, e))
  {
    hide IsBirthdaySource, ToSend, KeySent;
    var t := After(s, e);
    if e.Start? {
      AllAboutBirthdays(UpcomingNow(e.users, e.tenantId, e.day), Recipients(e.users, e.tenantId), e.tenantId, e.day);
      ToSendIs(e.users, e.tenantId, e.day);
    }
    forall w | w in t.workers
      ensures AboutBirthdays(w.todo) && (w.checked ==> w.todo != [])
    {
      if w !in s.workers && e.Proceed? {
        assert s.workers[e.worker] in s.workers;
      }
    }
  }

  lemma ToSendIs(users: seq<Person>, tenantId: Id, day: int)
    ensures ToSend(users, tenantId, day) ==
            RowsAboutAll(UpcomingNow(users, tenantId, day), Recipients(users, tenantId), tenantId, day)
  {
  }

  lemma {:induction false} CourseKeepsWorkers(s: Store, events: seq<Happening>)
    requires WorkersInv(s)
    ensures WorkersInv(Course(s, events))
  {
    hide WorkersInv, After;
    if events != [] {
      CourseKeepsWorkers(s, events[..|events| - 1]);
      StepKeepsWorkers(Course(s, events[..|events| - 1]), events[|events| - 1]);
    }
  }

  // ---- At most once, exactly without a race ----

  /** No run has been overtaken: what it is about to insert is not there yet. */
  predicate NoneOvertaken(s: Store) {
    forall w <- s.workers :: w.checked && w.todo != [] ==> !KeySent(s.table, w.todo[0])
  }

  lemma SentAfter(table: seq<Notification>, row: Notification, other: Notification)
    ensures KeySent(table + [row], other) <==> KeySent(table, other) || SameKey(row, other)
  {
  }

  lemma NotOvertaken(s: Store, b: nat)
    requires NoneOvertaken(s) && b < |s.workers|
    ensures s.workers[b].checked && s.workers[b].todo != [] ==> !KeySent(s.table, s.workers[b].todo[0])
  {
    assert s.workers[b] in s.workers;
  }

  /** A run about to insert a row that is there already was overtaken by another, at a moment when both were about to
      insert it. */
  lemma {:induction false} Overtaken(s: Store, events: seq<Happening>, b: nat) returns (j: nat)
    requires WorkersInv(s) && NoneOvertaken(s)
    requires var t := Course(s, events);
             b < |t.workers| && t.workers[b].checked && t.workers[b].todo != [] &&
               KeySent(t.table, t.workers[b].todo[0])
    ensures j < |events|
    ensures var before, t := Course(s, events[..j]), Course(s, events);
            && Inserts(before, events[j]) && events[j].worker != b
            && b < |before.workers| && before.workers[b] == t.workers[b]
            && SameKey(before.workers[events[j].worker].todo[0], t.workers[b].todo[0])
    decreases |events|
  {
    if b < |s.workers| {
      NotOvertaken(s, b);
    }
    var n := |events| - 1;
    var before, e := Course(s, events[..n]), events[n];
    CourseKeepsWorkers(s, events[..n]);
    var t := Course(s, events);
    assert b < |before.workers| && before.workers[b] == t.workers[b] && !(e.Proceed? && e.worker == b) by {
      UnmovedWhileSent(before, e, b);
    }
    var row := t.workers[b].todo[0];
    if KeySent(before.table, row) {
      j := Overtaken(s, events[..n], b);
      assert events[..n][..j] == events[..j];
    } else {
      j := n;
      assert before.workers[b] in before.workers && row in before.workers[b].todo;
      NewlySent(before, e, row);
    }
  }

  lemma UnmovedWhileSent(s: Store, e: Happening, b: nat)
    requires var t := After(s, e);
             b < |t.workers| && t.workers[b].checked && t.workers[b].todo != [] &&
               KeySent(t.table, t.workers[b].todo[0])
    ensures b < |s.workers| && s.workers[b] == After(s, e).workers[b] && !(e.Proceed? && e.worker == b)
  {
    hide ToSend;
  }

  lemma NewlySent(s: Store, e: Happening, row: Notification)
    requires KeySent(After(s, e).table, row) && !KeySent(s.table, row) && IsBirthdaySource(row.sourceId)
    ensures Inserts(s, e) && SameKey(s.workers[e.worker].todo[0], row)
  {
    hide ToSend, KeySent;
    match e
    case Start(_, _, _) =>
    case Proceed(i, fails) =>
      if i < |s.workers| && s.workers[i].todo != [] {
        SentAfter(s.table, s.workers[i].todo[0], row);
      }
    case Elsewhere(other) =>
      SentAfter(s.table, other, row);
  }

  lemma OnceAppend(table: seq<Notification>, row: Notification)
    requires Once(table)
    ensures Once(table + [row]) <==> !(IsBirthdaySource(row.sourceId) && KeySent(table, row))
  {
    hide IsBirthdaySource;
    var more := table + [row];
    if IsBirthdaySource(row.sourceId) && KeySent(table, row) {
      var n :| n in table && SameKey(n, row);
      var j :| 0 <= j < |table| && table[j] == n;
      assert SameKey(more[j], more[|table|]);
    } else {
      forall j, k | 0 <= j < k < |more| && IsBirthdaySource(more[k].sourceId)
        ensures !SameKey(more[j], more[k])
      {
        if k == |table| {
          assert more[j] in table;
        } else {
          assert more[j] == table[j] && more[k] == table[k];
        }
      }
    }
  }

  lemma OncePrefix(a: seq<Notification>, b: seq<Notification>)
    requires a <= b && Once(b)
    ensures Once(a)
  {
    hide IsBirthdaySource, SameKey;
    assert forall k :: 0 <= k < |a| ==> a[k] == b[k];
  }

  lemma {:induction false} TableGrows(s: Store, events: seq<Happening>, k: nat)
    requires k <= |events|
    ensures Course(s, events[..k]).table <= Course(s, events).table
    decreases |events|
  {
    hide ToSend, KeySent;
    if k == |events| {
      assert events[..k] == events;
    } else {
      var n := |events| - 1;
      TableGrows(s, events[..n], k);
      assert events[..n][..k] == events[..k];
    }
  }

  lemma InsertAppends(s: Store, events: seq<Happening>, k: nat)
    requires k < |events| && Inserts(Course(s, events[..k]), events[k])
    ensures var before := Course(s, events[..k]);
            Course(s, events[..k + 1]).table == before.table + [before.workers[events[k].worker].todo[0]]
  {
    hide KeySent, ToSend;
    assert events[..k + 1][..k] == events[..k];
  }

  /** A row inserted at k is in the table from then on. */
  lemma InsertedStays(s: Store, events: seq<Happening>, k: nat)
    requires k < |events| && Inserts(Course(s, events[..k]), events[k])
    ensures var before := Course(s, events[..k]);
            before.table + [before.workers[events[k].worker].todo[0]] <= Course(s, events).table
  {
    InsertAppends(s, events, k);
    TableGrows(s, events, k + 1);
  }

  lemma SecondNotOnce(table: seq<Notification>, row: Notification, after: seq<Notification>)
    requires IsBirthdaySource(row.sourceId) && KeySent(table, row) && table + [row] <= after
    ensures !Once(after)
  {
    hide IsBirthdaySource, KeySent, Once;
    if Once(after) {
      OncePrefix(table + [row], after);
      OncePrefix(table, table + [row]);
      OnceAppend(table, row);
    }
  }

  lemma SentByPrefix(before: seq<Notification>, first: Notification, table: seq<Notification>, second: Notification)
    requires before + [first] <= table && SameKey(first, second)
    ensures KeySent(table, second)
  {
    assert table[|before|] == first && first in table;
  }

  lemma RowIsBirthday(s: Store, b: nat)
    requires WorkersInv(s) && b < |s.workers| && s.workers[b].todo != []
    ensures IsBirthdaySource(s.workers[b].todo[0].sourceId)
  {
    hide IsBirthdaySource;
    assert s.workers[b] in s.workers && s.workers[b].todo[0] in s.workers[b].todo;
  }

  lemma RaceNotOnce(s: Store, events: seq<Happening>, j: nat, k: nat)
    requires WorkersInv(s) && Race(s, events, j, k)
    ensures !Once(Course(s, events).table)
  {
    var before, later := Course(s, events[..j]), Course(s, events[..k]);
    var a, b := events[j].worker, events[k].worker;
    assert events[..k][..j] == events[..j];
    CourseKeepsWorkers(s, events[..k]);
    hide WorkersInv, IsBirthdaySource, KeySent, Once, Course, SameKey;
    RowIsBirthday(later, b);
    InsertedStays(s, events[..k], j);
    InsertedStays(s, events, k);
    SentByPrefix(before.table, before.workers[a].todo[0], later.table, later.workers[b].todo[0]);
    SecondNotOnce(later.table, later.workers[b].todo[0], Course(s, events).table);
  }

  predicate Raced(s: Store, events: seq<Happening>) {
    exists j, k | 0 <= j < k < |events| :: Race(s, events, j, k)
  }

  lemma RaceLater(s: Store, events: seq<Happening>, n: nat, j: nat, k: nat)
    requires n <= |events| && Race(s, events[..n], j, k)
    ensures Race(s, events, j, k)
  {
    assert events[..n][..j] == events[..j] && events[..n][..k] == events[..k];
  }

  /** However runs overlap, fail and interleave with everything else: nobody is told twice of the same birthday on the
      same day, if and only if no two runs inserted a row that both were past checking when the first one did. */
  lemma {:induction false} OnceIffNoRace(s: Store, events: seq<Happening>)
    requires WorkersInv(s) && NoneOvertaken(s) && Once(s.table)
    ensures Once(Course(s, events).table) <==> !Raced(s, events)
    decreases |events|
  {
    if j, k :| 0 <= j < k < |events| && Race(s, events, j, k) {
      RaceNotOnce(s, events, j, k);
    } else if events != [] {
      var n := |events| - 1;
      forall j, k | 0 <= j < k < n
        ensures !Race(s, events[..n], j, k)
      {
        if Race(s, events[..n], j, k) {
          RaceLater(s, events, n, j, k);
        }
      }
      OnceIffNoRace(s, events[..n]);
      LastStepKeepsOnce(s, events);
    }
  }

  lemma OvertakenRaces(s: Store, events: seq<Happening>)
    requires WorkersInv(s) && NoneOvertaken(s) && events != []
    requires var before, e := Course(s, events[..|events| - 1]), events[|events| - 1];
             Inserts(before, e) && KeySent(before.table, before.workers[e.worker].todo[0])
    ensures Raced(s, events)
  {
    var n := |events| - 1;
    var j := Overtaken(s, events[..n], events[n].worker);
    assert events[..n][..j] == events[..j];
    assert Race(s, events, j, n);
  }

  lemma LastStepKeepsOnce(s: Store, events: seq<Happening>)
    requires WorkersInv(s) && NoneOvertaken(s) && events != []
    requires Once(Course(s, events[..|events| - 1]).table) && !Raced(s, events)
    ensures Once(Course(s, events).table)
  {
    var n := |events| - 1;
    var before, e := Course(s, events[..n]), events[n];
    hide ToSend, Once, WorkersInv, IsBirthdaySource;
    match e
    case Start(_, _, _) =>
    case Proceed(i, fails) =>
      if Inserts(before, e) {
        var row := before.workers[i].todo[0];
        if KeySent(before.table, row) {
          OvertakenRaces(s, events);
        }
        OnceAppend(before.table, row);
      }
    case Elsewhere(row) =>
      OnceAppend(before.table, row);
  }

  /** Runs that take turns are enough: if no two are ever under way together, nobody is told twice. */
  lemma TurnsSuffice(s: Store, events: seq<Happening>)
    requires WorkersInv(s) && NoneOvertaken(s) && Once(s.table)
    requires forall k :: 0 <= k <= |events| ==>
               var workers := Course(s, events[..k]).workers;
               forall a, b :: 0 <= a < b < |workers| ==> workers[a].todo == [] || workers[b].todo == []
    ensures Once(Course(s, events).table)
  {
    OnceIffNoRace(s, events);
  }

  /** And overlapping is enough to break it: two runs started together tell their first recipient twice. */
  lemma TwoAtOnceTellTwice(s: Store, users: seq<Person>, tenantId: Id, day: int)
    requires WorkersInv(s) && NoneOvertaken(s)
    requires ToSend(users, tenantId, day) != [] && !KeySent(s.table, ToSend(users, tenantId, day)[0])
    ensures var i, start := |s.workers|, Start(users, tenantId, day);
            var both := [Proceed(i, false), Proceed(i + 1, false)];
            !Once(Course(s, [start, start] + both + both).table)
  {
    hide ToSend, KeySent, Once, WorkersInv;
    var i, start, todo := |s.workers|, Start(users, tenantId, day), ToSend(users, tenantId, day);
    var both := [Proceed(i, false), Proceed(i + 1, false)];
    var events := [start, start] + both + both;
    assert events[..6] == events && events[..6][..5] == events[..5] && events[..5][..4] == events[..4];
    assert events[..4][..3] == events[..3] && events[..3][..2] == events[..2];
    assert events[..2][..1] == events[..1] && events[..1][..0] == [];
    var waiting, ready, done := Worker(todo, false), Worker(todo, true), Worker(todo[1..], false);
    var ws := s.workers;
    assert Course(s, events[..1]) == s.(workers := ws + [waiting]);
    assert Course(s, events[..2]) == s.(workers := ws + [waiting, waiting]);
    assert (ws + [waiting, waiting])[i := ready] == ws + [ready, waiting];
    assert Course(s, events[..3]) == s.(workers := ws + [ready, waiting]);
    assert (ws + [ready, waiting])[i + 1 := ready] == ws + [ready, ready];
    assert Course(s, events[..4]) == s.(workers := ws + [ready, ready]);
    assert (ws + [ready, ready])[i := done] == ws + [done, ready];
    assert Course(s, events[..5]) == Store(s.table + [todo[0]], ws + [done, ready]);
    assert Race(s, events, 4, 5);
    RaceNotOnce(s, events, 4, 5);
  }

  // ---- A run on its own is the job ----

  /** The rows one after the other, each inserted if its key is not there yet. */
  function SendInTurn(table: seq<Notification>, rows: seq<Notification>): seq<Notification>
    decreases |rows|
  {
    if rows == [] then table
    else
      var n := |rows| - 1;
      var before := SendInTurn(table, rows[..n]);
      if KeySent(before, rows[n]) then before else before + [rows[n]]
  }

  lemma {:induction false} SendConcat(table: seq<Notification>, a: seq<Notification>, b: seq<Notification>)
    ensures SendInTurn(table, a + b) == SendInTurn(SendInTurn(table, a), b)
    decreases |b|
  {
    hide KeySent;
    if b == [] {
      assert a + b == a;
    } else {
      SendConcat(table, a, b[..|b| - 1]);
      assert (a + b)[..|a + b| - 1] == a + b[..|b| - 1];
    }
  }

  lemma KeyOfAnnouncement(table: seq<Notification>, batch: Batch, b: UpcomingBirthday, r: Id)
    requires 0 <= b.daysUntil && batch.failing == {}
    ensures RowFor(table, batch, b, r) ==
            if r == b.id || KeySent(table, Announcement(batch.tenantId, r, b, batch.day)) then []
            else [Announcement(batch.tenantId, r, b, batch.day)]
  {
    hide SourceId, Title, Message;
    var row := Announcement(batch.tenantId, r, b, batch.day);
    AnnouncementKey(batch.tenantId, r, b, batch.day);
    assert KeySent(table, row) <==> AlreadySent(table, batch.tenantId, r, SourceId(b.id, batch.day)) by {
      if KeySent(table, row) {
        var n :| n in table && SameKey(n, row);
        assert AlreadySent(table, batch.tenantId, r, SourceId(b.id, batch.day));
      }
      if AlreadySent(table, batch.tenantId, r, SourceId(b.id, batch.day)) {
        var n :| n in table && n.tenantId == batch.tenantId && n.userId == r &&
            n.sourceId == Some(SourceId(b.id, batch.day));
        assert SameKey(n, row);
      }
    }
  }

  lemma {:induction false} NotifyInTurn(table: seq<Notification>, batch: Batch, b: UpcomingBirthday,
      recipients: seq<Id>)
    requires 0 <= b.daysUntil && batch.failing == {}
    ensures SendInTurn(table, RowsAbout(b, recipients, batch.tenantId, batch.day)) ==
            NotifyAll(table, batch, b, recipients)
    decreases |recipients|
  {
    hide KeySent, Announcement, RowFor;
    if recipients != [] {
      var n := |recipients| - 1;
      var rows := RowsAbout(b, recipients[..n], batch.tenantId, batch.day);
      var before := NotifyAll(table, batch, b, recipients[..n]);
      NotifyInTurn(table, batch, b, recipients[..n]);
      KeyOfAnnouncement(before, batch, b, recipients[n]);
      if recipients[n] == b.id {
        assert rows + [] == rows;
      } else {
        assert (rows + [Announcement(batch.tenantId, recipients[n], b, batch.day)])[..|rows|] == rows;
      }
    }
  }

  lemma {:induction false} SendAllInTurn(
    table: seq<Notification>, batch: Batch, upcoming: seq<UpcomingBirthday>, recipients: seq<Id>)
    requires Ahead(upcoming) && batch.failing == {}
    ensures SendInTurn(table, RowsAboutAll(upcoming, recipients, batch.tenantId, batch.day)) ==
            SendAll(table, batch, upcoming, recipients)
    decreases |upcoming|
  {
    hide SendInTurn, RowsAbout, NotifyAll;
    if upcoming == [] {
      NothingInTurn(table);
    } else {
      var n := |upcoming| - 1;
      SendAllInTurn(table, batch, upcoming[..n], recipients);
      SendConcat(table, RowsAboutAll(upcoming[..n], recipients, batch.tenantId, batch.day),
                 RowsAbout(upcoming[n], recipients, batch.tenantId, batch.day));
      NotifyInTurn(SendAll(table, batch, upcoming[..n], recipients), batch, upcoming[n], recipients);
    }
  }

  lemma NothingInTurn(table: seq<Notification>)
    ensures SendInTurn(table, []) == table
  {
  }

  predicate OnlyProceeds(events: seq<Happening>, i: nat) {
    forall e <- events :: e == Proceed(i, false)
  }

  lemma CourseAppend(s: Store, events: seq<Happening>, e: Happening)
    ensures Course(s, events + [e]) == After(Course(s, events), e)
  {
    hide After;
    assert (events + [e])[..|events|] == events;
  }

  lemma SeesToOne(s: Store, i: nat)
    requires i < |s.workers| && !s.workers[i].checked && s.workers[i].todo != []
    ensures var todo, step := s.workers[i].todo, Proceed(i, false);
            var next := s.workers[i := Worker(todo[1..], false)];
            if KeySent(s.table, todo[0]) then After(s, step) == Store(s.table, next)
            else After(After(s, step), step) == Store(s.table + [todo[0]], next)
  {
    hide KeySent;
  }

  /** Left alone, run i sees to its first n rows, sooner or later. */
  lemma {:induction false} SeesToRows(s: Store, i: nat, n: nat) returns (events: seq<Happening>)
    requires i < |s.workers| && !s.workers[i].checked && n <= |s.workers[i].todo|
    ensures OnlyProceeds(events, i)
    ensures var todo := s.workers[i].todo;
            Course(s, events) == Store(SendInTurn(s.table, todo[..n]), s.workers[i := Worker(todo[n..], false)])
  {
    var todo := s.workers[i].todo;
    if n == 0 {
      events := [];
      assert todo[0..] == todo && s.workers[i := Worker(todo, false)] == s.workers;
    } else {
      events := SeesToRows(s, i, n - 1);
      var t := Course(s, events);
      assert todo[..n][..n - 1] == todo[..n - 1] && todo[n - 1..][1..] == todo[n..];
      var step := Proceed(i, false);
      SeesToOne(t, i);
      hide Course, KeySent, After;
      CourseAppend(s, events, step);
      if KeySent(t.table, todo[n - 1]) {
        events := events + [step];
      } else {
        CourseAppend(s, events + [step], step);
        events := events + [step] + [step];
      }
    }
  }

  /** A run that nothing comes between leaves the table just as the job does in one go. */
  lemma AloneIsTheJob(s: Store, users: seq<Person>, tenantId: Id, day: int) returns (events: seq<Happening>)
    ensures OnlyProceeds(events, |s.workers|)
    ensures Course(After(s, Start(users, tenantId, day)), events).table ==
            AfterJob(s.table, users, Batch(tenantId, day, {}))
  {
    var t := After(s, Start(users, tenantId, day));
    var todo := ToSend(users, tenantId, day);
    assert t.workers[|s.workers|] == Worker(todo, false);
    events := SeesToRows(t, |s.workers|, |todo|);
    assert todo[..|todo|] == todo;
    hide Course, SendAll, UpcomingNow, Recipients, RowsAboutAll;
    SendAllInTurn(s.table, Batch(tenantId, day, {}), UpcomingNow(users, tenantId, day), Recipients(users, tenantId));
  }
}
