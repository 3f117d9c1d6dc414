/** What the missing check on submission allows: the same days any number of times, down to a balance below zero. */
module LeaveOverbooking {
  import opened LeaveTypes
  import opened Ledger
  import opened ApprovalRouting
  import opened LeaveHandlers
  import opened LeaveRuns
  import opened LeaveInvariants
  import opened LeaveOverdraft
  import opened LeaveSafety
  import Jobs = AccrualJobs
  import Laws = AccrualLaws

  // ---- Sequences of commands ----

  function Submissions(c: Command, ids: seq<Id>): seq<Step>
    requires c.SubmitCommand?
  {
    seq(|ids|, k requires 0 <= k < |ids| => Act(c.(newId := ids[k])))
  }

  /** The command that takes a request on from the given stage. */
  function Decide(status: Status, id: Id, tenantId: Id, actorId: Id): Command {
    match status
    case PENDING => CommentCommand(id, tenantId, actorId, "fine")
    case TEAM_LEAD_COMMENTED => DeptApproveCommand(id, tenantId, actorId, None)
    case _ => HrApproveCommand(id, tenantId, actorId)
  }

  function Decisions(status: Status, tenantId: Id, actorId: Id, ids: seq<Id>): seq<Step> {
    seq(|ids|, k requires 0 <= k < |ids| => Act(Decide(status, ids[k], tenantId, actorId)))
  }

  /** Who decides at each stage. */
  datatype Panel = Panel(lead: Id, head: Id, final: Id)

  function Decider(panel: Panel, status: Status): Id {
    match status
    case PENDING => panel.lead
    case TEAM_LEAD_COMMENTED => panel.head
    case _ => panel.final
  }

  function Onward(status: Status): Status {
    match status
    case PENDING => TEAM_LEAD_COMMENTED
    case TEAM_LEAD_COMMENTED => DEPT_APPROVED
    case _ => APPROVED
  }

  /** All requests through the given stage, then all through the next, up to the final approval. */
  function ThroughStages(status: Status, tenantId: Id, panel: Panel, ids: seq<Id>): seq<Step>
    decreases 3 - Rank(status)
  {
    if !IsCancellable(status) then []
    else Decisions(status, tenantId, Decider(panel, status), ids) + ThroughStages(Onward(status), tenantId, panel, ids)
  }

  predicate AllSucceed(s: State, steps: seq<Step>) {
    forall k :: 0 <= k < |steps| ==> Succeeds(Run(s, steps[..k]), steps[k])
  }

  lemma NothingFails(s: State)
    ensures AllSucceed(s, [])
  {
  }

  lemma OneMoreSucceeds(s: State, steps: seq<Step>)
    requires steps != [] && AllSucceed(s, steps[..|steps| - 1])
    requires Succeeds(Run(s, steps[..|steps| - 1]), steps[|steps| - 1])
    ensures AllSucceed(s, steps)
  {
    hide Succeeds, Run;
    PrefixesOneMore(steps);
  }

  lemma {:induction false} RunConcat(s: State, a: seq<Step>, b: seq<Step>)
    ensures Run(s, a + b) == Run(Run(s, a), b)
    decreases |b|
  {
    hide Next;
    if b == [] {
      assert a + b == a;
    } else {
      RunConcat(s, a, b[..|b| - 1]);
      assert (a + b)[..|a + b| - 1] == a + b[..|b| - 1];
    }
  }

  lemma SucceedConcat(s: State, a: seq<Step>, b: seq<Step>)
    requires AllSucceed(s, a) && AllSucceed(Run(s, a), b)
    ensures AllSucceed(s, a + b)
  {
    hide Succeeds, Run;
    forall k | 0 <= k < |a + b|
      ensures Succeeds(Run(s, (a + b)[..k]), (a + b)[k])
    {
      if k < |a| {
        assert (a + b)[..k] == a[..k];
      } else {
        assert (a + b)[..k] == a + b[..k - |a|];
        RunConcat(s, a, b[..k - |a|]);
      }
    }
  }

  // ---- Booking the same days again and again ----

  /** The submission passes every check. */
  predicate CanBook(s: State, c: Command)
    requires c.SubmitCommand?
  {
    && SubmitError(s, c.dto, c.tenantId, c.userId).None?
    && UsableBalance(s.ledger, KeyOfSubmission(c), s.today) >= TotalDays(c.dto)
  }

  /** The status that the submitter's requests start with. */
  function StartStatus(s: State, c: Command): Status
    requires c.SubmitCommand? && FindUser(s.users, c.userId).Some?
  {
    ResolveInitialRouting(c.userId, FindUser(s.users, c.userId).value.role, s.today).status
  }

  /** A request as asked for, at a stage. */
  function Asked(c: Command, status: Status): LeaveRequest
    requires c.SubmitCommand?
  {
    LeaveRequest("", c.userId, c.tenantId, c.dto.policyId, c.dto.departmentId, c.dto.startDate, c.dto.endDate,
                 TotalDays(c.dto), c.dto.reason, status, None, None, None, None, None)
  }

  /** The request with this key is as asked for and stands at the stage. */
  predicate StandsAt(s: State, c: Command, id: Id, status: Status)
    requires c.SubmitCommand?
  {
    var i := RequestIndex(s.requests, id);
    i.Some? && var r := s.requests[i.value];
    r.status == status && SameRequest(r.(id := ""), Asked(c, status))
  }

  predicate MayDecide(s: State, c: Command, status: Status, actorId: Id)
    requires c.SubmitCommand?
  {
    var actor := FindUser(s.users, actorId);
    actor.Some? && Qualified(s, Asked(c, status), actor.value)
  }

  predicate AllDiffer(ids: seq<Id>) {
    forall j, k :: 0 <= j < k < |ids| ==> ids[j] != ids[k]
  }

  lemma LastDiffers(ids: seq<Id>)
    requires ids != [] && AllDiffer(ids)
    ensures var n := |ids| - 1;
            && AllDiffer(ids[..n]) && ids[n] !in ids[..n]
            && forall id :: id in ids <==> id in ids[..n] || id == ids[n]
  {
    assert ids == ids[..|ids| - 1] + [ids[|ids| - 1]];
  }

  predicate Unused(s: State, ids: seq<Id>) {
    && AllDiffer(ids) && (forall id <- ids :: RequestIndex(s.requests, id).None?)
  }

  lemma BookOnce(s: State, c: Command, id: Id)
    requires c.SubmitCommand? && CanBook(s, c) && RequestIndex(s.requests, id).None?
    ensures var step := Act(c.(newId := id)); var t := Next(s, step);
            && Succeeds(s, step) && CanBook(t, c) && StandsAt(t, c, id, StartStatus(s, c))
            && t.users == s.users && t.tenants == s.tenants && t.today == s.today
            && SettledBalance(t, KeyOfSubmission(c)) == SettledBalance(s, KeyOfSubmission(c))
            && (forall other :: other != id ==> RequestIndex(t.requests, other) == RequestIndex(s.requests, other))
            && forall other, st :: other != id && StandsAt(s, c, other, st) ==> StandsAt(t, c, other, st)
  {
    hide TotalDays, FindUser;
    var r := NewRequest(id, c.dto, c.tenantId, c.userId, FindUser(s.users, c.userId).value.role, s.today);
    assert Handle(s, c.(newId := id)) ==
           Reply(s.(requests := s.requests + [r], ledger := s.ledger + [Reservation(r)]), Ok(r));
    SumAppend(s.ledger, Reservation(r), Effective(KeyOfSubmission(c), s.today));
    SumAppend(s.ledger, Reservation(r), Settled(KeyOfSubmission(c)));
    hide Sum, Handle, SubmitError, RequestIndex;
    forall other
      ensures RequestIndex(s.requests + [r], other) ==
              if RequestIndex(s.requests, other).Some? then RequestIndex(s.requests, other)
              else if r.id == other then Some(|s.requests|) else None
    {
      RequestIndexAppend(s.requests, r, other);
    }
    assert Next(s, Act(c.(newId := id))).requests == s.requests + [r];
  }

  lemma BookerExists(s: State, c: Command)
    requires c.SubmitCommand? && CanBook(s, c)
    ensures FindUser(s.users, c.userId).Some?
  {
  }

  /** t is s with requests booked under these keys. */
  predicate Booked(s: State, t: State, c: Command, ids: seq<Id>)
    requires c.SubmitCommand?
  {
    && t.users == s.users && t.tenants == s.tenants && t.today == s.today && CanBook(t, c)
    && SettledBalance(t, KeyOfSubmission(c)) == SettledBalance(s, KeyOfSubmission(c))
    && (forall id <- ids :: StandsAt(t, c, id, StartStatus(t, c)))
  }

  /** The keys that are still unused. */
  ghost predicate OthersUnused(s: State, t: State, ids: seq<Id>) {
    forall other :: other !in ids ==> RequestIndex(t.requests, other) == RequestIndex(s.requests, other)
  }

  lemma BookOneMore(s: State, t: State, c: Command, ids: seq<Id>)
    requires c.SubmitCommand? && ids != [] && Unused(s, ids)
    requires Booked(s, t, c, ids[..|ids| - 1]) && OthersUnused(s, t, ids[..|ids| - 1])
    ensures var step := Act(c.(newId := ids[|ids| - 1])); var u := Next(t, step);
            Succeeds(t, step) && Booked(s, u, c, ids) && OthersUnused(s, u, ids)
  {
    var n := |ids| - 1;
    BookerExists(t, c);
    LastDiffers(ids);
    assert ids[n] in ids;
    hide CanBook, StandsAt, StartStatus, Next, SettledBalance, Succeeds, RequestIndex, FindUser, AllDiffer;
    BookOnce(t, c, ids[n]);
    SameStart(t, Next(t, Act(c.(newId := ids[n]))), c);
  }

  lemma {:induction false} BookAll(s: State, c: Command, ids: seq<Id>)
    requires c.SubmitCommand? && CanBook(s, c) && Unused(s, ids)
    ensures var t := Run(s, Submissions(c, ids));
            AllSucceed(s, Submissions(c, ids)) && Booked(s, t, c, ids) && OthersUnused(s, t, ids)
    decreases |ids|
  {
    var steps := Submissions(c, ids);
    if ids == [] {
      assert steps == [];
      NothingFails(s);
      hide CanBook, SettledBalance;
    } else {
      var n := |ids| - 1;
      assert steps[..n] == Submissions(c, ids[..n]) && steps[n] == Act(c.(newId := ids[n]));
      LastDiffers(ids);
      assert forall id <- ids[..n] :: id in ids;
      hide CanBook, Next, Succeeds, RequestIndex, AllSucceed, AllDiffer, Booked, OthersUnused, Submissions;
      BookAll(s, c, ids[..n]);
      BookOneMore(s, Run(s, steps[..n]), c, ids);
      OneMoreSucceeds(s, steps);
    }
  }

  lemma SameStart(s: State, t: State, c: Command)
    requires c.SubmitCommand? && FindUser(s.users, c.userId).Some? && t.users == s.users && t.today == s.today
    ensures StartStatus(t, c) == StartStatus(s, c)
  {
  }

  // ---- Deciding on all of them ----

  lemma SameQualified(s: State, q: LeaveRequest, c: Command, status: Status, actor: User)
    requires c.SubmitCommand? && q.status == status && SameRequest(q.(id := ""), Asked(c, status))
    ensures Qualified(s, q, actor) <==> Qualified(s, Asked(c, status), actor)
  {
    hide FindUser, FindTenant, TotalDays;
  }

  lemma DecideOnce(s: State, c: Command, id: Id, status: Status, actorId: Id)
    requires LedgerInv(s) && SchemaInv(s) && c.SubmitCommand? && IsCancellable(status)
    requires StandsAt(s, c, id, status) && MayDecide(s, c, status, actorId)
    ensures var step := Act(Decide(status, id, c.tenantId, actorId)); var t := Next(s, step);
            && Succeeds(s, step) && StandsAt(t, c, id, Onward(status))
            && t.users == s.users && t.tenants == s.tenants && t.today == s.today
            && SettledBalance(t, KeyOfSubmission(c)) ==
               SettledBalance(s, KeyOfSubmission(c)) - (if status == DEPT_APPROVED then TotalDays(c.dto) else 0)
            && forall other, st :: other != id && StandsAt(s, c, other, st) ==> StandsAt(t, c, other, st)
  {
    DecisionSucceeds(s, c, id, status, actorId);
    DecisionMovesOne(s, c, id, status, Decide(status, id, c.tenantId, actorId));
    hide StandsAt, Handle, MayDecide, LedgerInv, SchemaInv, SettledBalance, TotalDays;
  }

  lemma DecisionSucceeds(s: State, c: Command, id: Id, status: Status, actorId: Id)
    requires SchemaInv(s) && c.SubmitCommand? && IsCancellable(status)
    requires StandsAt(s, c, id, status) && MayDecide(s, c, status, actorId)
    ensures Handle(s, Decide(status, id, c.tenantId, actorId)).result.Ok?
  {
    var decide := Decide(status, id, c.tenantId, actorId);
    var i := RequestIndex(s.requests, id).value;
    SameQualified(s, s.requests[i], c, status, FindUser(s.users, actorId).value);
    SucceedsExactlyIf(s, decide, i);
    hide Handle, FindUser, TotalDays, SchemaInv, Qualified;
  }

  lemma DecisionMovesOne(s: State, c: Command, id: Id, status: Status, decide: Command)
    requires LedgerInv(s) && c.SubmitCommand? && IsCancellable(status) && StandsAt(s, c, id, status)
    requires (exists tenantId, actorId :: decide == Decide(status, id, tenantId, actorId)) &&
             Handle(s, decide).result.Ok?
    ensures var t := Handle(s, decide).state;
            && StandsAt(t, c, id, Onward(status))
            && t.users == s.users && t.tenants == s.tenants && t.today == s.today
            && SettledBalance(t, KeyOfSubmission(c)) ==
               SettledBalance(s, KeyOfSubmission(c)) - (if status == DEPT_APPROVED then TotalDays(c.dto) else 0)
            && forall other, st :: other != id && StandsAt(s, c, other, st) ==> StandsAt(t, c, other, st)
  {
    var i := RequestIndex(s.requests, id).value;
    hide Handle, TotalDays, LedgerInv, LedgerAfter;
    var j := ActionEffect(s, decide);
    ActionMovesBalance(s, decide, i, KeyOfSubmission(c));
    var t := Handle(s, decide).state;
    forall other
      ensures RequestIndex(t.requests, other) == RequestIndex(s.requests, other)
    {
      RequestIndexSame(s.requests, t.requests, other);
    }
  }

  lemma {:induction false} DecideAll(s: State, c: Command, ids: seq<Id>, status: Status, actorId: Id)
    requires LedgerInv(s) && SchemaInv(s) && c.SubmitCommand? && IsCancellable(status) &&
             MayDecide(s, c, status, actorId)
    requires AllDiffer(ids) && forall id <- ids :: StandsAt(s, c, id, status)
    ensures var steps := Decisions(status, c.tenantId, actorId, ids); var t := Run(s, steps);
            && AllSucceed(s, steps) && t.users == s.users && t.tenants == s.tenants && t.today == s.today
            && (forall id <- ids :: StandsAt(t, c, id, Onward(status)))
            && SettledBalance(t, KeyOfSubmission(c)) ==
               SettledBalance(s, KeyOfSubmission(c)) - (if status == DEPT_APPROVED then |ids| * TotalDays(c.dto) else 0)
            && forall other, st :: other !in ids && StandsAt(s, c, other, st) ==> StandsAt(t, c, other, st)
    decreases |ids|
  {
    hide StandsAt, Next, SettledBalance, Succeeds, AllSucceed, TotalDays, LedgerInv, SchemaInv, FindUser, FindTenant;
    hide AllDiffer, Decide, Qualified;
    var steps := Decisions(status, c.tenantId, actorId, ids);
    if ids == [] {
      assert steps == [];
      NothingFails(s);
    } else {
      var n := |ids| - 1;
      assert steps[..n] == Decisions(status, c.tenantId, actorId, ids[..n]);
      LastDiffers(ids);
      DecideAll(s, c, ids[..n], status, actorId);
      var t := Run(s, steps[..n]);
      RunsKeepLedger(s, steps[..n]);
      RunsKeepSchema(s, steps[..n]);
      SameDeciders(s, t, c, status, actorId);
      DecideOnce(t, c, ids[n], status, actorId);
      OneMoreSucceeds(s, steps);
      assert |ids| * TotalDays(c.dto) == n * TotalDays(c.dto) + TotalDays(c.dto);
    }
  }

  lemma SameDeciders(s: State, t: State, c: Command, status: Status, actorId: Id)
    requires c.SubmitCommand? && t.users == s.users && t.tenants == s.tenants
    ensures MayDecide(t, c, status, actorId) <==> MayDecide(s, c, status, actorId)
  {
  }

  /** The panel can take the submitter's requests through all stages from the given one on. */
  predicate PanelFrom(s: State, c: Command, status: Status, panel: Panel)
    requires c.SubmitCommand?
    decreases 3 - Rank(status)
  {
    IsCancellable(status) ==>
      MayDecide(s, c, status, Decider(panel, status)) && PanelFrom(s, c, Onward(status), panel)
  }

  lemma {:induction false} SamePanel(s: State, t: State, c: Command, status: Status, panel: Panel)
    requires c.SubmitCommand? && t.users == s.users && t.tenants == s.tenants && PanelFrom(s, c, status, panel)
    ensures PanelFrom(t, c, status, panel)
    decreases 3 - Rank(status)
  {
    hide MayDecide;
    if IsCancellable(status) {
      SameDeciders(s, t, c, status, Decider(panel, status));
      SamePanel(s, t, c, Onward(status), panel);
    }
  }

  lemma {:induction false} StagesTakeDays(s: State, c: Command, ids: seq<Id>, status: Status, panel: Panel)
    requires LedgerInv(s) && SchemaInv(s) && c.SubmitCommand? && PanelFrom(s, c, status, panel) && IsCancellable(status)
    requires AllDiffer(ids) && forall id <- ids :: StandsAt(s, c, id, status)
    ensures var steps := ThroughStages(status, c.tenantId, panel, ids); var t := Run(s, steps);
            && AllSucceed(s, steps)
            && SettledBalance(t, KeyOfSubmission(c)) == SettledBalance(s, KeyOfSubmission(c)) - |ids| * TotalDays(c.dto)
            && forall id <- ids :: StandsAt(t, c, id, APPROVED)
    decreases 3 - Rank(status)
  {
    hide StandsAt, SettledBalance, AllSucceed, TotalDays, LedgerInv, SchemaInv, AllDiffer, MayDecide, Decisions, Run;
    var here := Decisions(status, c.tenantId, Decider(panel, status), ids);
    var rest := ThroughStages(Onward(status), c.tenantId, panel, ids);
    DecideAll(s, c, ids, status, Decider(panel, status));
    var t := Run(s, here);
    if status == DEPT_APPROVED {
      assert rest == [] && here + rest == here;
    } else {
      RunsKeepLedger(s, here);
      RunsKeepSchema(s, here);
      SamePanel(s, t, c, Onward(status), panel);
      StagesTakeDays(t, c, ids, Onward(status), panel);
      RunConcat(s, here, rest);
      SucceedConcat(s, here, rest);
    }
  }

  /** Whoever can book some days once, of any role, can book them any number of times: all submissions succeed, and
      then every comment and approval up to the final one, each final approval taking the same days out of the settled
      balance. */
  lemma SameDaysManyTimes(s: State, c: Command, ids: seq<Id>, panel: Panel)
    requires LedgerInv(s) && SchemaInv(s) && c.SubmitCommand? && CanBook(s, c) && Unused(s, ids)
    requires PanelFrom(s, c, StartStatus(s, c), panel)
    ensures var steps := Submissions(c, ids) + ThroughStages(StartStatus(s, c), c.tenantId, panel, ids);
            && AllSucceed(s, steps)
            && SettledBalance(Run(s, steps), KeyOfSubmission(c)) ==
               SettledBalance(s, KeyOfSubmission(c)) - |ids| * TotalDays(c.dto)
            && forall id <- ids :: StandsAt(Run(s, steps), c, id, APPROVED)
  {
    var start := StartStatus(s, c);
    var a, b := Submissions(c, ids), ThroughStages(start, c.tenantId, panel, ids);
    BookAll(s, c, ids);
    BookerExists(s, c);
    SameStart(s, Run(s, a), c);
    RunsKeepLedger(s, a);
    RunsKeepSchema(s, a);
    assert AllDiffer(ids);
    hide LedgerInv, SchemaInv, CanBook, StandsAt, SettledBalance, AllSucceed, TotalDays, FindUser, Run, MayDecide;
    hide Submissions, ThroughStages, Unused, AllDiffer;
    SamePanel(s, Run(s, a), c, start, panel);
    StagesTakeDays(Run(s, a), c, ids, start, panel);
    SucceedConcat(s, a, b);
    RunConcat(s, a, b);
  }

  // ---- A balance below zero ----

  const HEAD := User("u", "t", DEPT_HEAD, Some("d"))
  const HR := User("h", "t", HR_ADMIN, Some("e"))
  const CREDIT := LedgerRow("t", "u", "p", ACCRUAL, 100, false, 0, None)
  const HR_ALONE := Panel("h", "h", "h")
  const MONDAY_OFF := SubmitCommand("r", SubmitDto("p", "d", 4, 4, false, "Monday 5 January 1970"), "t", "u")

  /** A department head with one day of leave, and an HR admin. */
  function OneDayLeft(): State {
    State([HEAD, HR], [Department("d", "t", true), Department("e", "t", true)], [Tenant("t", Some("e"))],
          [Policy("p", "t", Annual, Yearly, 100, 100, NoCarryOver, None, true, ["d"])], [], [CREDIT], [], 0)
  }

  lemma OneDayIsValid()
    ensures var s := OneDayLeft();
            LedgerInv(s) && SchemaInv(s) && SettledBalance(s, KeyOfSubmission(MONDAY_OFF)) == 100
  {
    var s := OneDayLeft();
    assert s.ledger[..0] == [];
  }

  lemma OneDayPassesChecks()
    ensures var s := OneDayLeft();
            CanBook(s, MONDAY_OFF) && TotalDays(MONDAY_OFF.dto) == 100
  {
    var s := OneDayLeft();
    HeadAndHr();
    assert s.departments[..1] == [Department("d", "t", true)] && s.departments[..1][..0] == [] && s.ledger[..0] == [];
    assert FindDepartment(s.departments[..1], "d", "t") == Some(s.departments[0]);
    assert s.policies[0] in s.policies && HasActivePolicy(s.policies, "p", "t");
    assert Sum(s.ledger, Effective(KeyOfSubmission(MONDAY_OFF), 0)) == 100;
  }

  lemma OneDayCanBeBooked()
    ensures var s := OneDayLeft();
            && LedgerInv(s) && SchemaInv(s) && CanBook(s, MONDAY_OFF) && StartStatus(s, MONDAY_OFF) == DEPT_APPROVED
            && PanelFrom(s, MONDAY_OFF, DEPT_APPROVED, HR_ALONE)
            && TotalDays(MONDAY_OFF.dto) == 100 && SettledBalance(s, KeyOfSubmission(MONDAY_OFF)) == 100
  {
    OneDayIsValid();
    OneDayPassesChecks();
    HeadAndHr();
    hide LedgerInv, SchemaInv, CanBook, SettledBalance, TotalDays, FindUser, FindTenant;
  }

  /** It goes below zero: the head asks for the same Monday twice, the HR admin approves both. */
  lemma BalanceBelowZero()
    ensures var s, ids := OneDayLeft(), ["r", "q"];
            var steps := Submissions(MONDAY_OFF, ids) + ThroughStages(DEPT_APPROVED, "t", HR_ALONE, ids);
            && AllSucceed(s, steps) && SettledBalance(Run(s, steps), KeyOfSubmission(MONDAY_OFF)) == -100
  {
    OneDayCanBeBooked();
    var s := OneDayLeft();
    assert Unused(s, ["r", "q"]);
    hide LedgerInv, SchemaInv, CanBook, PanelFrom, SettledBalance, AllSucceed, Run, TotalDays, OneDayLeft, StartStatus;
    SameDaysManyTimes(s, MONDAY_OFF, ["r", "q"], HR_ALONE);
  }

  function MondayApproved(): LeaveRequest {
    var stamp := Some(Stamp("u", 0));
    LeaveRequest("r", "u", "t", "p", "d", 4, 4, 100, "Monday 5 January 1970", APPROVED, stamp, stamp, None,
                 Some(Stamp("h", 0)), None)
  }

  /** The same head, whose one day is approved for the Monday and not yet in effect. */
  function OneDayApproved(): State {
    OneDayLeft().(requests := [MondayApproved()],
                  ledger := [CREDIT] + [Reservation(MondayApproved()).(isPending := false)])
  }

  lemma ApprovedRows()
    ensures LedgerInv(OneDayApproved())
  {
    var s, r := OneDayApproved(), MondayApproved();
    var row := Reservation(r).(isPending := false);
    assert s.requests[..0] == [] && RequestIndex(s.requests, "r") == Some(0);
    RowsOfNone([CREDIT], Some("r"));
    RowsOfAppend([CREDIT], row, Some("r"));
    hide RowsOf, RequestIndex;
  }

  lemma ApprovedSchema()
    ensures SchemaInv(OneDayApproved())
  {
    var s := OneDayApproved();
    assert s.users[..1] == [HEAD] && s.users[..1][..0] == [] && UserIndex(s.users[..1], "u") == Some(0);
    hide MondayApproved;
    assert FindUser(s.users, "u") == Some(HEAD);
  }

  lemma ApprovedBalances()
    ensures var s, key := OneDayApproved(), KeyOfSubmission(MONDAY_OFF);
            SettledBalance(s, key) == 0 && UsableBalance(s.ledger, key, s.today) == 100
  {
    var key := KeyOfSubmission(MONDAY_OFF);
    var row := Reservation(MondayApproved()).(isPending := false);
    SumOfOne(CREDIT, Settled(key));
    SumOfOne(CREDIT, Effective(key, 0));
    SumAppend([CREDIT], row, Settled(key));
    SumAppend([CREDIT], row, Effective(key, 0));
    hide Sum;
  }

  lemma OneDayIsApproved()
    ensures var s, key := OneDayApproved(), KeyOfSubmission(MONDAY_OFF);
            && LedgerInv(s) && SchemaInv(s)
            && SettledBalance(s, key) == 0 && UsableBalance(s.ledger, key, s.today) == 100 && ToCome(s, key) == 100
  {
    hide LedgerInv, SchemaInv, SettledBalance, ToCome, UsableBalance, OneDayApproved;
    ApprovedRows();
    ApprovedSchema();
    ApprovedBalances();
    SettledIsUsableLessToCome(OneDayApproved(), KeyOfSubmission(MONDAY_OFF));
  }

  lemma PolicyCoversHead()
    ensures var s, key := OneDayApproved(), KeyOfSubmission(MONDAY_OFF);
            Jobs.CoveringPolicy(Jobs.Fetch(Jobs.CarryOver, s.policies), s.users, key) == Some(s.policies[0])
  {
    var s := OneDayApproved();
    var p := s.policies[0];
    Jobs.UsersInAnyMembers(s.users, p.departmentIds);
    assert s.policies[..0] == [] && Jobs.Fetch(Jobs.CarryOver, s.policies) == [p];
    assert s.users[0] == HEAD && HEAD in s.users && HEAD in Jobs.Employees(p, s.users);
    Laws.CoveringPolicyOf([p], s.users, p, HEAD);
  }

  const APPROVAL := HrApproveCommand("r", "t", "h")

  function MondayAsked(): LeaveRequest {
    var stamp := Some(Stamp("u", 0));
    LeaveRequest("r", "u", "t", "p", "d", 4, 4, 100, "Monday 5 January 1970", DEPT_APPROVED, stamp, stamp, None, None,
      None)
  }

  function OneDayAsked(): State {
    OneDayLeft().(requests := [MondayAsked()], ledger := [CREDIT] + [Reservation(MondayAsked())])
  }

  lemma MondayIsAskedFor()
    ensures Next(OneDayLeft(), Act(MONDAY_OFF)) == OneDayAsked() && Succeeds(OneDayLeft(), Act(MONDAY_OFF))
  {
    OneDayCanBeBooked();
    var s := OneDayLeft();
    HeadAndHr();
    hide UsableBalance, TotalDays, FindUser, HasActivePolicy, FindDepartment, LedgerInv, SchemaInv;
    assert NewRequest("r", MONDAY_OFF.dto, "t", "u", DEPT_HEAD, 0) == MondayAsked();
    assert [] + [MondayAsked()] == [MondayAsked()];
  }

  lemma HeadAndHr()
    ensures var s := OneDayLeft();
            && FindUser(s.users, "u") == Some(HEAD) && FindUser(s.users, "h") == Some(HR)
            && FindTenant(s.tenants, "t") == Some(Tenant("t", Some("e")))
  {
    var s := OneDayLeft();
    assert s.users[..1] == [HEAD] && s.users[..1][..0] == [] && s.tenants[..0] == [];
    assert UserIndex(s.users[..1], "u") == Some(0) && UserIndex(s.users[..1], "h") == None;
  }

  lemma MondayRowSettles()
    ensures SettlePending([CREDIT] + [Reservation(MondayAsked())], "r") ==
            [CREDIT] + [Reservation(MondayApproved()).(isPending := false)]
  {
    SettleAppend([CREDIT], Reservation(MondayAsked()), "r");
    SettleAppend([], CREDIT, "r");
    assert [] + [CREDIT] == [CREDIT] && SettlePending([], "r") == [];
    hide SettlePending;
  }

  lemma MondayIsApproved()
    ensures Next(OneDayAsked(), Act(APPROVAL)) == OneDayApproved() && Succeeds(OneDayAsked(), Act(APPROVAL))
  {
    var s := OneDayAsked();
    HeadAndHr();
    MondayRowSettles();
    assert s.requests[..0] == [] && RequestIndex(s.requests, "r") == Some(0);
    hide SettlePending, FindUser, FindTenant, RequestIndex, Sum;
    assert s.requests[0 := MondayApproved()] == [MondayApproved()];
  }

  lemma MondayIsCovered()
    ensures Covered(OneDayAsked(), Act(APPROVAL), KeyOfSubmission(MONDAY_OFF))
  {
    var s, r, key := OneDayAsked(), MondayAsked(), KeyOfSubmission(MONDAY_OFF);
    assert s.requests[..0] == [] && RequestIndex(s.requests, "r") == Some(0);
    SumOfOne(CREDIT, Settled(key));
    SumAppend([CREDIT], Reservation(r), Settled(key));
    hide Handle, Sum, RequestIndex;
  }

  /** A run of two steps, by its states. */
  lemma TwoSteps(s: State, a: Step, t: State, b: Step, u: State, key: Key)
    requires Next(s, a) == t && Next(t, b) == u && Succeeds(s, a) && Succeeds(t, b) && Covered(s, a, key) &&
             Covered(t, b, key)
    ensures Run(s, [a, b]) == u && AllSucceed(s, [a, b]) && AllCovered(s, [a, b], key)
  {
    hide Next, Succeeds, Covered;
    assert [a, b][..1] == [a] && [a, b][..0] == [] && [a][..0] == [] && [a, b][..2] == [a, b];
    assert Run(s, [a]) == t;
  }

  lemma RunOneMore(s: State, steps: seq<Step>, step: Step)
    ensures Run(s, steps + [step]) == Next(Run(s, steps), step)
  {
    hide Next;
    assert (steps + [step])[..|steps|] == steps;
  }

  /** It goes below zero without any approval at fault: from one day left, the day is asked for and approved, both
      covered, and then the year-end expiry takes it although it is spoken for. */
  lemma ExpiryBelowZero()
    ensures var s, key, booked := OneDayLeft(), KeyOfSubmission(MONDAY_OFF), [Act(MONDAY_OFF), Act(APPROVAL)];
            && AllSucceed(s, booked) && AllCovered(s, booked, key) && SettledBalance(Run(s, booked), key) == 0
            && SettledBalance(Run(s, booked + [RunJob(Jobs.CarryOver)]), key) == -100
            && !Covered(Run(s, booked), RunJob(Jobs.CarryOver), key)
  {
    var key, ask, approve := KeyOfSubmission(MONDAY_OFF), Act(MONDAY_OFF), Act(APPROVAL);
    MondayIsAskedFor();
    MondayIsApproved();
    MondayIsCovered();
    BookedThenExpired();
    assert Covered(OneDayLeft(), ask, key);
    hide OneDayLeft, OneDayAsked, OneDayApproved, Next, Succeeds, SettledBalance, Covered, Run, AllSucceed, AllCovered;
    TwoSteps(OneDayLeft(), ask, OneDayAsked(), approve, OneDayApproved(), key);
    RunOneMore(OneDayLeft(), [ask, approve], RunJob(Jobs.CarryOver));
  }

  lemma BookedThenExpired()
    ensures var s, key := OneDayApproved(), KeyOfSubmission(MONDAY_OFF);
            && SettledBalance(s, key) == 0 && SettledBalance(Next(s, RunJob(Jobs.CarryOver)), key) == -100
            && !Covered(s, RunJob(Jobs.CarryOver), key)
  {
    OneDayIsApproved();
    PolicyCoversHead();
    hide LedgerInv, SchemaInv, SettledBalance, ToCome, UsableBalance, Next;
    var s, key := OneDayApproved(), KeyOfSubmission(MONDAY_OFF);
    ExpiryOwesLeaveToCome(s, key);
    StepKeepsBalance(s, RunJob(Jobs.CarryOver), key);
  }
}
