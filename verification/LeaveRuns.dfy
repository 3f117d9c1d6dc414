/** Runs of the leave system: any sequence of leave commands, user updates, scheduled jobs and days passing. */
module LeaveRuns {
  import opened LeaveTypes
  import opened Ledger
  import opened ApprovalRouting
  import opened LeaveHandlers
  import opened LeaveDays
  import Jobs = AccrualJobs

  datatype Command =
    | SubmitCommand(newId: Id, dto: SubmitDto, tenantId: Id, userId: Id)
    | CommentCommand(id: Id, tenantId: Id, actorId: Id, comment: string)
    | DeptApproveCommand(id: Id, tenantId: Id, actorId: Id, deptComment: Option<string>)
    | HrApproveCommand(id: Id, tenantId: Id, actorId: Id)
    | RejectCommand(id: Id, tenantId: Id, actorId: Id, rejectReason: Option<string>)
    | CancelCommand(id: Id, tenantId: Id, actorId: Id)

  /** UpdateUser carries only the fields of the update that matter here, each present or not. A department
      that is present may be null, which takes the user out of theirs. */
  datatype Step =
    | Act(command: Command)
    | UpdateUser(userId: Id, tenantId: Id, role: Option<Role>, departmentId: Option<Option<Id>>)
    | RunJob(job: Jobs.Job)
    | PassDays(days: nat)

  function Handle(s: State, c: Command): Reply {
    match c
    case SubmitCommand(newId, dto, tenantId, userId) => Submit(s, newId, dto, tenantId, userId)
    case CommentCommand(id, tenantId, actorId, comment) => TeamLeadComment(s, id, tenantId, actorId, comment)
    case DeptApproveCommand(id, tenantId, actorId, comment) => DeptApprove(s, id, tenantId, actorId, comment)
    case HrApproveCommand(id, tenantId, actorId) => HrApprove(s, id, tenantId, actorId)
    case RejectCommand(id, tenantId, actorId, reason) => Reject(s, id, tenantId, actorId, reason)
    case CancelCommand(id, tenantId, requesterId) => Cancel(s, id, tenantId, requesterId)
  }

  /** The update names a department that the tenant does not have. */
  predicate WrongDepartment(departments: seq<Department>, departmentId: Option<Option<Id>>, tenantId: Id) {
    && departmentId.Some? && departmentId.value.Some?
    && FindDepartment(departments, departmentId.value.value, tenantId).None?
  }

  function UpdatedUsers(s: State, id: Id, tenantId: Id, role: Option<Role>,
      departmentId: Option<Option<Id>>): seq<User>
  {
    match UserIndex(s.users, id)
    case None => s.users
    case Some(i) =>
      var u := s.users[i];
      if u.tenantId != tenantId then s.users
      else if WrongDepartment(s.departments, departmentId, tenantId) then s.users
      else s.users[i := u.(role := if role.Some? then role.value else u.role,
                           departmentId := if departmentId.Some? then departmentId.value else u.departmentId)]
  }

  function Next(s: State, step: Step): State {
    match step
    case Act(c) => Handle(s, c).state
    case UpdateUser(id, tenantId, role, departmentId) => s.(users := UpdatedUsers(s, id, tenantId, role, departmentId))
    case RunJob(job) => s.(ledger := s.ledger + Jobs.JobRows(job, s.policies, s.users, s.ledger, s.today))
    case PassDays(days) => s.(today := s.today + days)
  }

  function Run(s: State, steps: seq<Step>): State {
    if steps == [] then s else Next(Run(s, steps[..|steps| - 1]), steps[|steps| - 1])
  }

  /** The prefixes of a run are those of the run without its last step, and the whole run. */
  lemma PrefixesOneMore(steps: seq<Step>)
    requires steps != []
    ensures var n := |steps| - 1;
            steps[..n + 1] == steps && forall k :: 0 <= k <= n ==> steps[..n][..k] == steps[..k]
  {
  }

  predicate Succeeds(s: State, step: Step) {
    step.Act? && Handle(s, step.command).result.Ok?
  }

  /** The columns of a request that no handler ever changes. */
  predicate SameRequest(r: LeaveRequest, q: LeaveRequest) {
    && r.id == q.id && r.userId == q.userId && r.tenantId == q.tenantId && r.policyId == q.policyId
    && r.departmentId == q.departmentId && r.startDate == q.startDate && r.endDate == q.endDate
    && r.totalDays == q.totalDays && r.reason == q.reason
  }

  /** What a successful action does to the ledger rows of its request. */
  function LedgerAfter(ledger: seq<LedgerRow>, c: Command): seq<LedgerRow>
    requires !c.SubmitCommand?
  {
    if c.HrApproveCommand? then SettlePending(ledger, c.id)
    else if c.RejectCommand? || c.CancelCommand? then DropPending(ledger, c.id)
    else ledger
  }

  /** The only statuses that a command may lead from and to. */
  predicate MayMove(c: Command, before: Status, after: Status)
    requires !c.SubmitCommand?
  {
    match c
    case CommentCommand(_, _, _, _) => before == PENDING && after == TEAM_LEAD_COMMENTED
    case DeptApproveCommand(_, _, _, _) => before == TEAM_LEAD_COMMENTED && after == DEPT_APPROVED
    case HrApproveCommand(_, _, _) => before == DEPT_APPROVED && after == APPROVED
    case RejectCommand(_, _, _, _) => (before == TEAM_LEAD_COMMENTED || before == DEPT_APPROVED) && after == REJECTED
    case CancelCommand(_, _, _) =>
      (before == PENDING || before == TEAM_LEAD_COMMENTED || before == DEPT_APPROVED) && after == CANCELLED
  }

  /** A successful action rewrites one request, within its immutable columns and along the allowed
      statuses, and its ledger rows; it touches no other request and none of the other tables but comments. */
  lemma ActionEffect(s: State, c: Command) returns (i: nat)
    requires !c.SubmitCommand? && Handle(s, c).result.Ok?
    ensures RequestIndex(s.requests, c.id) == Some(i) && i < |s.requests|
    ensures var t, r := Handle(s, c).state, Handle(s, c).result.value;
            && t == s.(requests := s.requests[i := r], ledger := LedgerAfter(s.ledger, c), comments := t.comments)
            && SameRequest(s.requests[i], r)
            && MayMove(c, s.requests[i].status, r.status)
  {
    i := RequestIndex(s.requests, c.id).value;
  }

  /** What a submission asks for, in the columns of a request. */
  predicate AskedFor(r: LeaveRequest, c: Command)
    requires c.SubmitCommand?
  {
    && r.id == c.newId && r.tenantId == c.tenantId && r.userId == c.userId
    && r.policyId == c.dto.policyId && r.departmentId == c.dto.departmentId && r.reason == c.dto.reason
    && r.startDate == c.dto.startDate <= r.endDate == c.dto.endDate
    && if c.dto.isHalfDay then 2 * r.totalDays == 100
       else r.totalDays == 100 * WeekdaysBetween(r.startDate, r.endDate)
  }

  /** A successful submission appends one request under a new id, as asked for, with its reservation; it
      comes from a member of the department, who had the balance for it. */
  lemma SubmitEffect(s: State, c: Command)
    requires c.SubmitCommand? && Handle(s, c).result.Ok?
    ensures var t, r := Handle(s, c).state, Handle(s, c).result.value;
            && t == s.(requests := s.requests + [r], ledger := s.ledger + [Reservation(r)])
            && AskedFor(r, c) && RequestIndex(s.requests, r.id).None? && r.totalDays >= 0
            && r.status in CANCELLABLE_STAGES
            && FindUser(s.users, r.userId).Some?
            && FindUser(s.users, r.userId).value.departmentId == Some(r.departmentId)
            && UsableBalance(s.ledger, Key(r.tenantId, r.userId, r.policyId), s.today) >= r.totalDays
  {
  }

  /** A command that fails changes nothing at all. */
  lemma FailureChangesNothing(s: State, c: Command)
    requires Handle(s, c).result.Err?
    ensures Handle(s, c).state == s
  {
  }

  // ---- Requests found by id ----

  lemma {:induction false} RequestIndexSame(a: seq<LeaveRequest>, b: seq<LeaveRequest>, id: Id)
    requires |a| == |b| && forall i :: 0 <= i < |a| ==> a[i].id == b[i].id
    ensures RequestIndex(a, id) == RequestIndex(b, id)
  {
    if a != [] {
      RequestIndexSame(a[..|a| - 1], b[..|b| - 1], id);
    }
  }

  lemma RequestIndexAppend(a: seq<LeaveRequest>, r: LeaveRequest, id: Id)
    ensures RequestIndex(a + [r], id) ==
            if RequestIndex(a, id).Some? then RequestIndex(a, id) else if r.id == id then Some(|a|) else None
  {
    assert (a + [r])[..|a|] == a;
  }

  lemma {:induction false} UserIndexSame(a: seq<User>, b: seq<User>, id: Id)
    requires |a| == |b| && forall i :: 0 <= i < |a| ==> a[i].id == b[i].id
    ensures UserIndex(a, id) == UserIndex(b, id)
  {
    if a != [] {
      UserIndexSame(a[..|a| - 1], b[..|b| - 1], id);
    }
  }

  /** Updating users keeps the table's keys and everyone's tenant; a role changes only where the update carries
      one, a department only where it carries one, and then to none or to one of the tenant's. */
  lemma UpdatedUsersKeepKeys(s: State, id: Id, tenantId: Id, role: Option<Role>, departmentId: Option<Option<Id>>,
      other: Id)
    ensures var users := UpdatedUsers(s, id, tenantId, role, departmentId);
            && |users| == |s.users| && (forall i :: 0 <= i < |users| ==> users[i].id == s.users[i].id)
            && (FindUser(users, other).Some? <==> FindUser(s.users, other).Some?)
            && (FindUser(users, other).Some? ==>
                  var before, after := FindUser(s.users, other).value, FindUser(users, other).value;
                  && after.tenantId == before.tenantId
                  && (after.role == before.role || (other == id && role == Some(after.role)))
                  && (after.departmentId == before.departmentId ||
                      (other == id && departmentId == Some(after.departmentId) && after.tenantId == tenantId &&
                       (after.departmentId.None? ||
                        FindDepartment(s.departments, after.departmentId.value, tenantId).Some?))))
  {
    UserIndexSame(UpdatedUsers(s, id, tenantId, role, departmentId), s.users, other);
  }

  // ---- Progress: every action moves a request on, and no request takes many ----

  /** The request's rank, or -1 for an id that no request has. */
  function RankOf(s: State, id: Id): int {
    var i := RequestIndex(s.requests, id);
    if i.Some? then Rank(s.requests[i.value].status) else -1
  }

  predicate ApprovesOf(step: Step, id: Id) {
    && step.Act?
    && (step.command.CommentCommand? || step.command.DeptApproveCommand? || step.command.HrApproveCommand?)
    && step.command.id == id
  }

  predicate EndsOf(step: Step, id: Id) {
    && step.Act?
    && (step.command.HrApproveCommand? || step.command.RejectCommand? || step.command.CancelCommand?)
    && step.command.id == id
  }

  /** A successful stage action strictly raises the rank of its request: an approval moves it exactly to
      the next stage, an ending action to a terminal status. */
  lemma StageActionRaisesRank(s: State, step: Step, id: Id)
    requires Succeeds(s, step) && (ApprovesOf(step, id) || EndsOf(step, id))
    ensures 0 <= RankOf(s, id) < RankOf(Next(s, step), id)
    ensures EndsOf(step, id) ==> RankOf(Next(s, step), id) == 3
    ensures ApprovesOf(step, id) ==>
              && RankOf(Next(s, step), id) == RankOf(s, id) + 1
              && Some(Handle(s, step.command).result.value.status) ==
                 NextStatusOnApprove(s.requests[RequestIndex(s.requests, id).value].status)
  {
    var i := ActionEffect(s, step.command);
    hide Handle, LedgerAfter, NextStatusOnApprove;
    var t := Handle(s, step.command).state;
    assert t == Next(s, step);
    RequestIndexSame(s.requests, t.requests, id);
    StageOrder();
  }

  lemma StageOrder()
    ensures NextStatusOnApprove(PENDING) == Some(TEAM_LEAD_COMMENTED)
    ensures NextStatusOnApprove(TEAM_LEAD_COMMENTED) == Some(DEPT_APPROVED)
    ensures NextStatusOnApprove(DEPT_APPROVED) == Some(APPROVED)
  {
    assert Rank(PENDING) == 0 && Rank(TEAM_LEAD_COMMENTED) == 1 && Rank(DEPT_APPROVED) == 2;
  }

  /** No step lowers a rank or loses a request, and a request at a terminal status is frozen: nothing
      changes any of its columns again. */
  lemma RanksNeverFall(s: State, step: Step, id: Id)
    ensures RankOf(s, id) <= RankOf(Next(s, step), id)
    ensures RankOf(s, id) == 3 ==>
              var i := RequestIndex(s.requests, id);
              RequestIndex(Next(s, step).requests, id) == i && Next(s, step).requests[i.value] == s.requests[i.value]
  {
    if step.Act? {
      var c := step.command;
      if Handle(s, c).result.Err? {
        FailureChangesNothing(s, c);
      } else if c.SubmitCommand? {
        SubmitEffect(s, c);
        RequestIndexAppend(s.requests, Handle(s, c).result.value, id);
      } else {
        ActionKeepsRanks(s, c, id);
      }
    }
  }

  lemma ActionKeepsRanks(s: State, c: Command, id: Id)
    requires !c.SubmitCommand? && Handle(s, c).result.Ok?
    ensures var t := Handle(s, c).state;
            && RequestIndex(t.requests, id) == RequestIndex(s.requests, id)
            && RankOf(s, id) <= RankOf(t, id)
            && (RankOf(s, id) == 3 ==>
                  var i := RequestIndex(s.requests, id).value; id != c.id && t.requests[i] == s.requests[i])
  {
    var i := ActionEffect(s, c);
    var r := Handle(s, c).result.value;
    assert Rank(s.requests[i].status) < Rank(r.status);
    hide Handle, LedgerAfter, MayMove, Rank;
    RequestIndexSame(s.requests, s.requests[i := r], id);
  }

  /** How many steps of the run successfully approve, or with `ends` end, the request. */
  function Count(s: State, steps: seq<Step>, id: Id, ends: bool): nat {
    if steps == [] then 0
    else
      var init, last := steps[..|steps| - 1], steps[|steps| - 1];
      var before := Run(s, init);
      var counts := Succeeds(before, last) && if ends then EndsOf(last, id) else ApprovesOf(last, id);
      Count(s, init, id, ends) + if counts then 1 else 0
  }

  /** In any run a request takes at most three approving steps, fewer if it starts further on. */
  lemma {:induction false} FewApprovals(s: State, steps: seq<Step>, id: Id)
    ensures var start := if RankOf(s, id) < 0 then 0 else RankOf(s, id);
            var end := if RankOf(Run(s, steps), id) < 0 then 0 else RankOf(Run(s, steps), id);
            Count(s, steps, id, false) + start <= end <= 3
  {
    hide Handle;
    if steps != [] {
      var init, last := steps[..|steps| - 1], steps[|steps| - 1];
      FewApprovals(s, init, id);
      RanksNeverFall(Run(s, init), last, id);
      if Succeeds(Run(s, init), last) && ApprovesOf(last, id) {
        StageActionRaisesRank(Run(s, init), last, id);
      }
    }
  }

  /** In any run a request is ended at most once, and never if it starts at a terminal status. */
  lemma {:induction false} OneEnding(s: State, steps: seq<Step>, id: Id)
    ensures Count(s, steps, id, true) <= 1
    ensures Count(s, steps, id, true) == 1 ==> RankOf(s, id) < 3 && RankOf(Run(s, steps), id) == 3
  {
    hide Handle;
    if steps != [] {
      var init, last := steps[..|steps| - 1], steps[|steps| - 1];
      OneEnding(s, init, id);
      RanksRise(s, init, id);
      RanksNeverFall(Run(s, init), last, id);
      RankBound(Run(s, steps), id);
      if Succeeds(Run(s, init), last) && EndsOf(last, id) {
        StageActionRaisesRank(Run(s, init), last, id);
      }
    }
  }

  lemma RankBound(s: State, id: Id)
    ensures -1 <= RankOf(s, id) <= 3
  {
  }

  lemma {:induction false} RanksRise(s: State, steps: seq<Step>, id: Id)
    ensures RankOf(s, id) <= RankOf(Run(s, steps), id)
  {
    hide Handle, RankOf;
    if steps != [] {
      RanksRise(s, steps[..|steps| - 1], id);
      RanksNeverFall(Run(s, steps[..|steps| - 1]), steps[|steps| - 1], id);
    }
  }
}
