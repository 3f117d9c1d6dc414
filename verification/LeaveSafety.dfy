/** Safety of the approval workflow over whole runs: stamps, self-approval and the accrual cap. */
module LeaveSafety {
  import opened LeaveTypes
  import opened Ledger
  import opened ApprovalRouting
  import opened LeaveHandlers
  import opened LeaveRuns
  import opened LeaveInvariants
  import Jobs = AccrualJobs
  import Laws = AccrualLaws

  // ---- The stage decides who acts ----

  /** The actor has the role that the request's stage calls for, and works where that stage is decided: a
      team lead of the department, then its head, then an HR admin from the tenant's HR department, or the
      tenant admin where the submitter is an HR admin. */
  predicate Qualified(s: State, q: LeaveRequest, actor: User) {
    match DeriveCurrentStage(q.status)
    case Some(TeamLeadStage) => actor.role == TEAM_LEAD && actor.departmentId == Some(q.departmentId)
    case Some(DeptHeadStage) => actor.role == DEPT_HEAD && actor.departmentId == Some(q.departmentId)
    case Some(HrStage) =>
      var submitter, tenant := FindUser(s.users, q.userId), FindTenant(s.tenants, q.tenantId);
      && submitter.Some?
      && if submitter.value.role == HR_ADMIN then actor.role == TENANT_ADMIN
         else actor.role == HR_ADMIN && tenant.Some? && actor.departmentId == tenant.value.hrDepartmentId
    case None => false
  }

  /** The one stamp that a decision at the request's stage leaves. */
  predicate StampedAtStage(s: State, q: LeaveRequest, r: LeaveRequest, actor: User) {
    var stamp := Some(Stamp(actor.id, s.today));
    (r.teamLead, r.dept, r.hr, r.tenantAdmin) ==
    match DeriveCurrentStage(q.status)
    case Some(TeamLeadStage) => (stamp, q.dept, q.hr, q.tenantAdmin)
    case Some(DeptHeadStage) => (q.teamLead, stamp, q.hr, q.tenantAdmin)
    case _ =>
      if actor.role == TENANT_ADMIN then (q.teamLead, q.dept, q.hr, stamp)
      else (q.teamLead, q.dept, stamp, q.tenantAdmin)
  }

  /** The stage alone, not the command, decides who may act and which stamp they leave: comments, approvals
      and rejections alike. Only the submitter cancels, leaving no stamp. The request is of the tenant that the
      command names; LeaveTenants says when that is the actor's. */
  lemma StageDecidesActor(s: State, c: Command, i: nat)
    requires !c.SubmitCommand? && Handle(s, c).result.Ok? && RequestIndex(s.requests, c.id) == Some(i)
    ensures var q, r, actor := s.requests[i], Handle(s, c).result.value, FindUser(s.users, c.actorId);
            && q.tenantId == c.tenantId
            && if c.CancelCommand? then
                 q.userId == c.actorId && r == q.(status := CANCELLED)
               else
                 actor.Some? && Qualified(s, q, actor.value) && StampedAtStage(s, q, r, actor.value)
  {
    hide Submit, UsableBalance, SettlePending, DropPending, FindTenant;
    match c
    case CommentCommand(_, _, _, _) =>
    case DeptApproveCommand(_, _, _, _) =>
    case HrApproveCommand(_, _, _) =>
    case RejectCommand(_, _, _, _) =>
    case CancelCommand(_, _, _) =>
  }

  /** The stages that a command is for. */
  predicate IsFor(c: Command, stage: Option<Stage>)
    requires !c.SubmitCommand?
  {
    match c
    case CommentCommand(_, _, _, _) => stage == Some(TeamLeadStage)
    case DeptApproveCommand(_, _, _, _) => stage == Some(DeptHeadStage)
    case HrApproveCommand(_, _, _) => stage == Some(HrStage)
    case RejectCommand(_, _, _, _) => stage == Some(DeptHeadStage) || stage == Some(HrStage)
    case CancelCommand(_, _, _) => stage.Some?
  }

  /** A command on a request of its tenant succeeds exactly if the request stands at a stage the command is
      for and the actor is qualified there, or is the submitter and cancels. */
  lemma SucceedsExactlyIf(s: State, c: Command, i: nat)
    requires SchemaInv(s) && !c.SubmitCommand? && RequestIndex(s.requests, c.id) == Some(i)
    ensures var q, actor := s.requests[i], FindUser(s.users, c.actorId);
            Handle(s, c).result.Ok? <==>
            && q.tenantId == c.tenantId && IsFor(c, DeriveCurrentStage(q.status))
            && if c.CancelCommand? then q.userId == c.actorId else actor.Some? && Qualified(s, q, actor.value)
  {
    assert FindUser(s.users, s.requests[i].userId).Some? by { assert s.requests[i] in s.requests; }
    hide SchemaInv, FindUser, FindTenant;
    match c
    case HrApproveCommand(id, tenantId, actorId) => HrApproveSucceedsIf(s, id, tenantId, actorId, i);
    case RejectCommand(id, tenantId, actorId, reason) => RejectSucceedsIf(s, id, tenantId, actorId, reason, i);
    case CommentCommand(_, _, _, _) =>
    case DeptApproveCommand(_, _, _, _) =>
    case CancelCommand(_, _, _) =>
  }

  lemma HrApproveSucceedsIf(s: State, id: Id, tenantId: Id, actorId: Id, i: nat)
    requires RequestIndex(s.requests, id) == Some(i) && FindUser(s.users, s.requests[i].userId).Some?
    ensures var q, actor := s.requests[i], FindUser(s.users, actorId);
            HrApprove(s, id, tenantId, actorId).result.Ok? <==>
            q.tenantId == tenantId && q.status == DEPT_APPROVED && actor.Some? && Qualified(s, q, actor.value)
  {
    hide FindUser, FindTenant, SettlePending;
  }

  lemma RejectSucceedsIf(s: State, id: Id, tenantId: Id, actorId: Id, reason: Option<string>, i: nat)
    requires RequestIndex(s.requests, id) == Some(i) && FindUser(s.users, s.requests[i].userId).Some?
    ensures var q, actor := s.requests[i], FindUser(s.users, actorId);
            Reject(s, id, tenantId, actorId, reason).result.Ok? <==>
            && q.tenantId == tenantId && (q.status == TEAM_LEAD_COMMENTED || q.status == DEPT_APPROVED)
            && actor.Some? && Qualified(s, q, actor.value)
  {
    hide FindUser, FindTenant, DropPending;
  }

  /** Under these commands the comments table only grows, by what the actor wrote: always on a team lead's
      comment, on a rejection if a reason was given, and otherwise not at all. */
  lemma CommentsAreKept(s: State, c: Command)
    ensures var written := match c
              case CommentCommand(_, _, _, comment) => Some(comment)
              case RejectCommand(_, _, _, reason) => if reason == Some("") then None else reason
              case _ => None;
            Handle(s, c).state.comments ==
            s.comments +
            if Handle(s, c).result.Ok? && written.Some? then [Comment(c.id, c.actorId, written.value)] else []
  {
    hide AssertCanAct, FindRequest, SettlePending, DropPending, UsableBalance, SubmitError;
    assert s.comments + [] == s.comments;
  }

  // ---- Stamps record the path of a request ----

  predicate Before(a: Option<Stamp>, b: Option<Stamp>) {
    b.Some? ==> a.Some? && a.value.date <= b.value.date
  }

  predicate NotBy(stamp: Option<Stamp>, userId: Id, today: int) {
    stamp.Some? ==> stamp.value.approver != userId && stamp.value.date <= today
  }

  /** The stamps are in order and agree with the status; the final stamp is one of two, and not the
      submitter's own. */
  predicate StampsRecordPath(r: LeaveRequest, today: int) {
    && Before(r.teamLead, r.dept) && Before(r.dept, r.hr) && Before(r.dept, r.tenantAdmin)
    && (r.teamLead.Some? ==> r.teamLead.value.date <= today) && (r.dept.Some? ==> r.dept.value.date <= today)
    && NotBy(r.hr, r.userId, today) && NotBy(r.tenantAdmin, r.userId, today)
    && (r.hr.None? || r.tenantAdmin.None?)
    && (IsCancellable(r.status) || r.status == CANCELLED ==> r.hr.None? && r.tenantAdmin.None?)
    && match r.status
       case PENDING => r.teamLead.None?
       case TEAM_LEAD_COMMENTED => r.teamLead.Some? && r.dept.None?
       case DEPT_APPROVED => r.dept.Some?
       case APPROVED => r.dept.Some? && (r.hr.Some? || r.tenantAdmin.Some?)
       case REJECTED => r.dept.Some?
       case CANCELLED => true
  }

  predicate StampInv(s: State) {
    forall r <- s.requests :: StampsRecordPath(r, s.today)
  }

  /** A decision at a stage extends the path: one more stamp, dated today, and not the submitter's own once
      the department has approved. */
  lemma DecisionExtendsPath(s: State, c: Command, q: LeaveRequest, r: LeaveRequest, actor: User)
    requires !c.SubmitCommand? && !c.CancelCommand? && MayMove(c, q.status, r.status) && SameRequest(q, r)
    requires FindUser(s.users, actor.id) == Some(actor) && Qualified(s, q, actor) && StampedAtStage(s, q, r, actor)
    requires StampsRecordPath(q, s.today)
    ensures StampsRecordPath(r, s.today)
  {
    hide FindUser, FindTenant;
  }

  lemma ActionStamps(s: State, c: Command, i: nat)
    requires !c.SubmitCommand? && Handle(s, c).result.Ok? && RequestIndex(s.requests, c.id) == Some(i)
    requires StampsRecordPath(s.requests[i], s.today)
    ensures StampsRecordPath(Handle(s, c).result.value, s.today)
  {
    var j := ActionEffect(s, c);
    StageDecidesActor(s, c, i);
    hide Handle, Qualified, StampedAtStage, FindUser;
    if !c.CancelCommand? {
      var actor := FindUser(s.users, c.actorId).value;
      DecisionExtendsPath(s, c, s.requests[i], Handle(s, c).result.value, actor);
    }
  }

  lemma SubmitStamps(s: State, c: Command)
    requires c.SubmitCommand? && Handle(s, c).result.Ok?
    ensures StampsRecordPath(Handle(s, c).result.value, s.today)
  {
  }

  lemma StepKeepsStamps(s: State, step: Step)
    requires StampInv(s)
    ensures StampInv(Next(s, step))
  {
    if step.Act? {
      var c := step.command;
      if Handle(s, c).result.Err? {
        FailureChangesNothing(s, c);
      } else if c.SubmitCommand? {
        SubmitEffect(s, c);
        SubmitStamps(s, c);
      } else {
        var i := ActionEffect(s, c);
        assert s.requests[i] in s.requests;
        ActionStamps(s, c, i);
        hide Handle, StampsRecordPath;
        forall q | q in Handle(s, c).state.requests
          ensures StampsRecordPath(q, s.today)
        {
          if q != Handle(s, c).result.value {
            assert q in s.requests;
          }
        }
      }
    }
  }

  /** In every reachable state the stamps of every request record its path. */
  lemma {:induction false} RunsKeepStamps(s: State, steps: seq<Step>)
    requires StampInv(s)
    ensures StampInv(Run(s, steps))
  {
    hide StampInv, Next;
    if steps != [] {
      RunsKeepStamps(s, steps[..|steps| - 1]);
      StepKeepsStamps(Run(s, steps[..|steps| - 1]), steps[|steps| - 1]);
    }
  }

  // ---- Every early stamp was made from within the department ----

  /** On the day of the stamp the approver belonged to the department and had one of the roles. */
  predicate StampedFrom(s: State, stamp: Stamp, departmentId: Id, roles: set<Role>) {
    var u := FindUser(s.users, stamp.approver);
    u.Some? && u.value.departmentId == Some(departmentId) && u.value.role in roles && s.today == stamp.date
  }

  ghost predicate StampedDuring(s: State, steps: seq<Step>, stamp: Stamp, departmentId: Id, roles: set<Role>) {
    exists k :: 0 <= k < |steps| && StampedFrom(Run(s, steps[..k]), stamp, departmentId, roles)
  }

  const TEAM_LEAD_AND_ABOVE := {TEAM_LEAD, DEPT_HEAD, HR_ADMIN}
  const DEPT_HEAD_AND_ABOVE := {DEPT_HEAD, HR_ADMIN}

  /** Who may have stamped a stage: exactly its role, or, for the submitter, a role that skips it. */
  function Stampers(approver: Id, userId: Id, role: Role, above: set<Role>): set<Role> {
    if approver == userId then above else {role}
  }

  predicate NewStampFrom(s: State, before: Option<Stamp>, after: Option<Stamp>, r: LeaveRequest, role: Role,
                         above: set<Role>)
  {
    after == before ||
    (after.Some? && StampedFrom(s, after.value, r.departmentId, Stampers(after.value.approver, r.userId, role, above)))
  }

  lemma ActionStampsFrom(s: State, c: Command, i: nat)
    requires !c.SubmitCommand? && Handle(s, c).result.Ok? && RequestIndex(s.requests, c.id) == Some(i)
    ensures var q, r := s.requests[i], Handle(s, c).result.value;
            && NewStampFrom(s, q.teamLead, r.teamLead, r, TEAM_LEAD, TEAM_LEAD_AND_ABOVE)
            && NewStampFrom(s, q.dept, r.dept, r, DEPT_HEAD, DEPT_HEAD_AND_ABOVE)
  {
    var j := ActionEffect(s, c);
    StageDecidesActor(s, c, i);
    hide Handle, FindUser, FindTenant;
  }

  lemma SubmitStampsFrom(s: State, c: Command)
    requires c.SubmitCommand? && Handle(s, c).result.Ok?
    ensures var r := Handle(s, c).result.value;
            && NewStampFrom(s, None, r.teamLead, r, TEAM_LEAD, TEAM_LEAD_AND_ABOVE)
            && NewStampFrom(s, None, r.dept, r, DEPT_HEAD, DEPT_HEAD_AND_ABOVE)
  {
  }

  lemma StampedLonger(s: State, steps: seq<Step>, stamp: Stamp, departmentId: Id, roles: set<Role>)
    requires steps != [] && StampedDuring(s, steps[..|steps| - 1], stamp, departmentId, roles)
    ensures StampedDuring(s, steps, stamp, departmentId, roles)
  {
    var init := steps[..|steps| - 1];
    var k :| 0 <= k < |init| && StampedFrom(Run(s, init[..k]), stamp, departmentId, roles);
    assert init[..k] == steps[..k];
  }

  /** A request after a step is a new submission, the target of a successful action, or was there before. */
  lemma WhereFrom(s: State, step: Step, r: LeaveRequest) returns (q: Option<LeaveRequest>)
    requires r in Next(s, step).requests
    ensures q.Some? ==> q.value in s.requests && q.value.departmentId == r.departmentId && q.value.userId == r.userId
    ensures var before := if q.Some? then q.value.teamLead else None;
            NewStampFrom(s, before, r.teamLead, r, TEAM_LEAD, TEAM_LEAD_AND_ABOVE)
    ensures var before := if q.Some? then q.value.dept else None;
            NewStampFrom(s, before, r.dept, r, DEPT_HEAD, DEPT_HEAD_AND_ABOVE)
  {
    if r in s.requests {
      q := Some(r);
    } else {
      var c := step.command;
      if c.SubmitCommand? {
        SubmitEffect(s, c);
        SubmitStampsFrom(s, c);
        q := None;
      } else {
        var i := ActionEffect(s, c);
        ActionStampsFrom(s, c, i);
        q := Some(s.requests[i]);
      }
    }
  }

  /** In any run that starts without requests, every team-lead and department stamp was made, on its date, by
      someone who then belonged to the request's department: by a team lead or its head, no other role, except
      where the submitter's own role skips the stage. */
  lemma {:induction false} StampersWereInDepartment(s: State, steps: seq<Step>, r: LeaveRequest)
    requires s.requests == [] && r in Run(s, steps).requests
    ensures r.teamLead.Some? ==>
              var roles := Stampers(r.teamLead.value.approver, r.userId, TEAM_LEAD, TEAM_LEAD_AND_ABOVE);
              StampedDuring(s, steps, r.teamLead.value, r.departmentId, roles)
    ensures r.dept.Some? ==>
              var roles := Stampers(r.dept.value.approver, r.userId, DEPT_HEAD, DEPT_HEAD_AND_ABOVE);
              StampedDuring(s, steps, r.dept.value, r.departmentId, roles)
  {
    var init, last := steps[..|steps| - 1], steps[|steps| - 1];
    var q := WhereFrom(Run(s, init), last, r);
    if q.Some? {
      StampersWereInDepartment(s, init, q.value);
    }
    hide Next, StampedFrom;
    StampMadeDuring(s, steps, if q.Some? then q.value.teamLead else None, r.teamLead, r, TEAM_LEAD,
      TEAM_LEAD_AND_ABOVE);
    StampMadeDuring(s, steps, if q.Some? then q.value.dept else None, r.dept, r, DEPT_HEAD, DEPT_HEAD_AND_ABOVE);
  }

  lemma StampMadeDuring(s: State, steps: seq<Step>, before: Option<Stamp>, after: Option<Stamp>, r: LeaveRequest,
                        role: Role, above: set<Role>)
    requires steps != []
    requires NewStampFrom(Run(s, steps[..|steps| - 1]), before, after, r, role, above)
    requires before.Some? ==>
               StampedDuring(s, steps[..|steps| - 1], before.value, r.departmentId,
                             Stampers(before.value.approver, r.userId, role, above))
    ensures after.Some? ==>
              StampedDuring(s, steps, after.value, r.departmentId,
                            Stampers(after.value.approver, r.userId, role, above))
  {
    if after.Some? {
      var roles := Stampers(after.value.approver, r.userId, role, above);
      if after == before {
        StampedLonger(s, steps, after.value, r.departmentId, roles);
      } else {
        assert StampedFrom(Run(s, steps[..|steps| - 1]), after.value, r.departmentId, roles);
      }
    }
  }

  // ---- Nobody decides on their own request ----

  /** Whatever the roles are at the time: the final approval, and the rejection of a request that awaits
      it, never succeed for the submitter. */
  lemma OwnFinalDecisionFails(s: State, c: Command, i: nat)
    requires c.HrApproveCommand? || c.RejectCommand?
    requires RequestIndex(s.requests, c.id) == Some(i) && s.requests[i].userId == c.actorId
    requires s.requests[i].status == DEPT_APPROVED
    ensures Handle(s, c).result.Err?
  {
  }

  /** At the department stage a submitter decides on their own request exactly if they are head of its
      department by then; a promotion since the submission is enough. */
  lemma OwnDeptDecision(s: State, c: Command, i: nat)
    requires c.DeptApproveCommand? || c.RejectCommand?
    requires RequestIndex(s.requests, c.id) == Some(i) && s.requests[i].userId == c.actorId
    requires s.requests[i].tenantId == c.tenantId && s.requests[i].status == TEAM_LEAD_COMMENTED
    ensures Handle(s, c).result.Ok? <==>
            var u := FindUser(s.users, c.actorId);
            u.Some? && u.value.role == DEPT_HEAD && u.value.departmentId == Some(s.requests[i].departmentId)
  {
  }

  predicate RolesFixed(steps: seq<Step>) {
    forall step <- steps :: step.UpdateUser? ==> step.role.None?
  }

  /** The submitter of a request that awaits a stage has a role below that stage. */
  predicate SubmittersBelow(s: State) {
    forall r <- s.requests :: BelowStage(s.users, r)
  }

  predicate BelowStage(users: seq<User>, r: LeaveRequest) {
    var u := FindUser(users, r.userId);
    && (r.status == PENDING ==> u.Some? && u.value.role !in {TEAM_LEAD, DEPT_HEAD, HR_ADMIN})
    && (r.status == TEAM_LEAD_COMMENTED ==> u.Some? && u.value.role !in {DEPT_HEAD, HR_ADMIN})
  }

  lemma StepKeepsSubmittersBelow(s: State, step: Step)
    requires SubmittersBelow(s) && (step.UpdateUser? ==> step.role.None?)
    ensures SubmittersBelow(Next(s, step))
  {
    match step
    case Act(c) =>
      if Handle(s, c).result.Err? {
        FailureChangesNothing(s, c);
      } else if c.SubmitCommand? {
        SubmitEffect(s, c);
      } else {
        var i := ActionEffect(s, c);
        hide Handle;
        assert s.requests[i] in s.requests;
        forall q | q in Handle(s, c).state.requests
          ensures BelowStage(s.users, q)
        {
          if q != Handle(s, c).result.value {
            assert q in s.requests;
          }
        }
      }
    case UpdateUser(id, tenantId, role, departmentId) =>
      forall r | r in s.requests
        ensures BelowStage(UpdatedUsers(s, id, tenantId, role, departmentId), r)
      {
        UpdatedUsersKeepKeys(s, id, tenantId, role, departmentId, r.userId);
      }
    case RunJob(_) =>
    case PassDays(_) =>
  }

  lemma {:induction false} RunsKeepSubmittersBelow(s: State, steps: seq<Step>)
    requires SubmittersBelow(s) && RolesFixed(steps)
    ensures SubmittersBelow(Run(s, steps))
  {
    hide SubmittersBelow, Next;
    if steps != [] {
      assert steps[|steps| - 1] in steps;
      RunsKeepSubmittersBelow(s, steps[..|steps| - 1]);
      StepKeepsSubmittersBelow(Run(s, steps[..|steps| - 1]), steps[|steps| - 1]);
    }
  }

  /** With roles fixed, in any run from a system without requests, no submitter ever takes a stage action,
      comment, approval or rejection, on their own request. */
  lemma NoOwnDecisions(s: State, steps: seq<Step>, c: Command, i: nat)
    requires s.requests == [] && RolesFixed(steps)
    requires c.CommentCommand? || c.DeptApproveCommand? || c.HrApproveCommand? || c.RejectCommand?
    requires RequestIndex(Run(s, steps).requests, c.id) == Some(i) && Run(s, steps).requests[i].userId == c.actorId
    ensures Handle(Run(s, steps), c).result.Err?
  {
    RunsKeepSubmittersBelow(s, steps);
    var t := Run(s, steps);
    assert BelowStage(t.users, t.requests[i]);
    if Handle(t, c).result.Ok? {
      var j := ActionEffect(t, c);
      if t.requests[i].status == DEPT_APPROVED {
        OwnFinalDecisionFails(t, c, i);
      } else if t.requests[i].status == TEAM_LEAD_COMMENTED {
        OwnDeptDecision(t, c, i);
      }
    }
  }

  const WEEKEND_DTO := SubmitDto("p", "d", 2, 2, false, "Saturday 3 January 1970")
  const WEEKEND_SUBMISSION := SubmitCommand("r", WEEKEND_DTO, "t", "u")
  const PROMOTION := UpdateUser("u", "t", Some(DEPT_HEAD), None)
  const OWN_APPROVAL := DeptApproveCommand("r", "t", "u", None)

  function TeamLeadAlone(): State {
    State([User("u", "t", TEAM_LEAD, Some("d"))], [Department("d", "t", true)], [Tenant("t", None)],
          [Policy("p", "t", Annual, Yearly, 100, 100, NoCarryOver, None, true, ["d"])], [], [], [], 0)
  }

  function WeekendRequest(): LeaveRequest {
    NewRequest("r", WEEKEND_DTO, "t", "u", TEAM_LEAD, 0)
  }

  lemma WeekendSubmitted()
    ensures var s := TeamLeadAlone();
            Next(s, Act(WEEKEND_SUBMISSION)) == s.(requests := [WeekendRequest()],
              ledger := [Reservation(WeekendRequest())])
  {
    var s := TeamLeadAlone();
    assert s.policies[0] in s.policies && HasActivePolicy(s.policies, "p", "t");
    assert s.departments[..0] == [] && s.users[..0] == [];
    assert FindUser(s.users, "u") == Some(s.users[0]);
    assert FindDepartment(s.departments, "d", "t") == Some(s.departments[0]);
    assert TotalDays(WEEKEND_DTO) == 0;
    assert [] + [WeekendRequest()] == [WeekendRequest()];
    assert [] + [Reservation(WeekendRequest())] == [Reservation(WeekendRequest())];
  }

  lemma TeamLeadPromoted()
    ensures var s := TeamLeadAlone();
            UpdatedUsers(s, "u", "t", Some(DEPT_HEAD), None) == [User("u", "t", DEPT_HEAD, Some("d"))]
  {
    assert UserIndex(TeamLeadAlone().users, "u") == Some(0);
  }

  /** With role changes it does happen: a team lead asks for a weekend, is made head of the department, and
      gives the department's approval to the request. */
  lemma PromotedSubmitterApproves()
    ensures var t := Run(TeamLeadAlone(), [Act(WEEKEND_SUBMISSION), PROMOTION]);
            Handle(t, OWN_APPROVAL).result.Ok? && Handle(t, OWN_APPROVAL).result.value.userId == OWN_APPROVAL.actorId
  {
    hide Handle;
    var s := TeamLeadAlone();
    var steps := [Act(WEEKEND_SUBMISSION), PROMOTION];
    assert steps[..1] == [Act(WEEKEND_SUBMISSION)] && steps[..1][..0] == [];
    WeekendSubmitted();
    TeamLeadPromoted();
    var submitted := Next(s, Act(WEEKEND_SUBMISSION));
    assert Run(s, steps[..1]) == submitted;
    assert UpdatedUsers(submitted, "u", "t", Some(DEPT_HEAD), None) == UpdatedUsers(s, "u", "t", Some(DEPT_HEAD), None);
    var t := Run(s, steps);
    assert t == submitted.(users := [User("u", "t", DEPT_HEAD, Some("d"))]);
    assert RequestIndex(t.requests, "r") == Some(0);
    assert FindUser(t.users, "u") == Some(t.users[0]);
    OwnDeptDecision(t, OWN_APPROVAL, 0);
    OkValueIsRequest(t, OWN_APPROVAL);
  }

  lemma OkValueIsRequest(s: State, c: Command)
    requires !c.SubmitCommand? && Handle(s, c).result.Ok?
    ensures var i := RequestIndex(s.requests, c.id);
            i.Some? && Handle(s, c).result.value.userId == s.requests[i.value].userId
  {
    var i := ActionEffect(s, c);
  }

  // ---- What a reservation does not protect ----

  /** A pending reservation is not in the balance that the next submission reads, so whoever can ask for some
      days once can ask for them again: the same submission succeeds under every fresh id. LeaveOverdraft takes
      it from there. */
  lemma SameDaysTwice(s: State, c: Command, again: Id)
    requires c.SubmitCommand? && Handle(s, c).result.Ok?
    requires again != c.newId && RequestIndex(s.requests, again).None?
    ensures var t := Handle(s, c).state;
            && UsableBalance(t.ledger, Key(c.tenantId, c.userId, c.dto.policyId), t.today) ==
               UsableBalance(s.ledger, Key(c.tenantId, c.userId, c.dto.policyId), s.today)
            && Handle(t, c.(newId := again)).result.Ok?
  {
    var r := Handle(s, c).result.value;
    SumAppend(s.ledger, Reservation(r), Effective(Key(c.tenantId, c.userId, c.dto.policyId), s.today));
    RequestIndexAppend(s.requests, r, again);
    hide Sum, RequestIndex, TotalDays;
  }

  // ---- The accrual cap ----

  /** A carry-over that covers the key leaves room for what it carries. Nothing else can exceed the maximum. */
  predicate LeavesRoom(s: State, step: Step, key: Key) {
    step == RunJob(Jobs.CarryOver) ==>
      var p := Jobs.CoveringPolicy(Jobs.Fetch(Jobs.CarryOver, s.policies), s.users, key);
      p.Some? ==> !Laws.Overfills(p.value, UsableBalance(s.ledger, key, s.today))
  }

  lemma JobKeepsCap(s: State, job: Jobs.Job, key: Key, p: Policy)
    requires SchemaInv(s) && p in s.policies && p.id == key.policyId
    requires UsableBalance(s.ledger, key, s.today) <= p.maxBalance
    ensures UsableBalance(Next(s, RunJob(job)).ledger, key, s.today) <= p.maxBalance <==>
            LeavesRoom(s, RunJob(job), key)
  {
    var b := UsableBalance(s.ledger, key, s.today);
    var fetched := Jobs.Fetch(job, s.policies);
    Jobs.JobChangesBalance(job, s.policies, s.users, s.ledger, s.today, key);
    Jobs.FetchMembers(job, s.policies);
    Jobs.CoveringPolicyIs(fetched, s.users, key);
    var c := Jobs.CoveringPolicy(fetched, s.users, key);
    hide SchemaInv, UsableBalance;
    if c.Some? {
      SamePolicy(s.policies, p, c.value);
      if job == Jobs.CarryOver {
        Laws.CarryOverCap(p, b);
      } else {
        Laws.AccrualCap(job, p, b);
      }
    }
  }

  lemma SamePolicy(policies: seq<Policy>, p: Policy, q: Policy)
    requires Jobs.DistinctPolicies(policies) && p in policies && q in policies && p.id == q.id
    ensures p == q
  {
    var i :| 0 <= i < |policies| && policies[i] == p;
    var j :| 0 <= j < |policies| && policies[j] == q;
    assert i == j;
  }

  lemma StepKeepsCap(s: State, step: Step, key: Key, p: Policy)
    requires LedgerInv(s) && SchemaInv(s) && p in s.policies && p.id == key.policyId
    requires UsableBalance(s.ledger, key, s.today) <= p.maxBalance
    ensures UsableBalance(Next(s, step).ledger, key, Next(s, step).today) <= p.maxBalance <==> LeavesRoom(s, step, key)
  {
    LateRowsAreDebits(s);
    hide LedgerInv;
    match step
    case Act(c) =>
      if Handle(s, c).result.Err? {
        FailureChangesNothing(s, c);
      } else if c.SubmitCommand? {
        SubmitEffect(s, c);
        SumAppend(s.ledger, Reservation(Handle(s, c).result.value), Effective(key, s.today));
      } else {
        var i := ActionEffect(s, c);
        SettlingLowers(s.ledger, c.id, Effective(key, s.today));
        DroppingKeeps(s.ledger, c.id, Effective(key, s.today));
      }
    case UpdateUser(_, _, _, _) =>
    case RunJob(job) => JobKeepsCap(s, job, key, p);
    case PassDays(days) => UsableLater(s.ledger, key, s.today, s.today + days);
  }

  predicate WithinCap(s: State, key: Key, p: Policy) {
    UsableBalance(s.ledger, key, s.today) <= p.maxBalance
  }

  predicate AlwaysWithinCap(s: State, steps: seq<Step>, key: Key, p: Policy) {
    forall k :: 0 <= k <= |steps| ==> WithinCap(Run(s, steps[..k]), key, p)
  }

  predicate AllLeaveRoom(s: State, steps: seq<Step>, key: Key) {
    forall k :: 0 <= k < |steps| ==> LeavesRoom(Run(s, steps[..k]), steps[k], key)
  }

  lemma WithinCapOneMore(s: State, steps: seq<Step>, key: Key, p: Policy)
    requires steps != []
    ensures AlwaysWithinCap(s, steps, key, p) <==>
            AlwaysWithinCap(s, steps[..|steps| - 1], key, p) && WithinCap(Run(s, steps), key, p)
  {
    hide WithinCap, Run;
    PrefixesOneMore(steps);
  }

  lemma LeaveRoomOneMore(s: State, steps: seq<Step>, key: Key)
    requires steps != []
    ensures AllLeaveRoom(s, steps, key) <==>
            && AllLeaveRoom(s, steps[..|steps| - 1], key)
            && LeavesRoom(Run(s, steps[..|steps| - 1]), steps[|steps| - 1], key)
  {
    hide LeavesRoom, Run;
    PrefixesOneMore(steps);
  }

  /** Over every run, a usable balance that starts within its policy's maximum never exceeds it, if and only if every
      carry-over leaves room: commands, user updates, accruals, seedings and passing days cannot exceed it. */
  lemma {:induction false} CapKeptIff(s: State, steps: seq<Step>, key: Key, p: Policy)
    requires LedgerInv(s) && SchemaInv(s) && p in s.policies && p.id == key.policyId && WithinCap(s, key, p)
    ensures AlwaysWithinCap(s, steps, key, p) <==> AllLeaveRoom(s, steps, key)
  {
    hide LedgerInv, SchemaInv, Next, LeavesRoom;
    if steps == [] {
      assert Run(s, steps) == s;
    } else {
      var init, before := steps[..|steps| - 1], Run(s, steps[..|steps| - 1]);
      CapKeptIff(s, init, key, p);
      RunsKeepLedger(s, init);
      RunsKeepSchema(s, init);
      WithinCapOneMore(s, steps, key, p);
      LeaveRoomOneMore(s, steps, key);
      assert AlwaysWithinCap(s, init, key, p) ==> WithinCap(before, key, p) by { assert init[..|init|] == init; }
      hide AlwaysWithinCap, AllLeaveRoom;
      if WithinCap(before, key, p) {
        StepKeepsCap(before, steps[|steps| - 1], key, p);
      }
    }
  }

  /** In particular it stays there through every run without the carry-over job. */
  lemma RunsKeepCap(s: State, steps: seq<Step>, key: Key, p: Policy)
    requires LedgerInv(s) && SchemaInv(s) && p in s.policies && p.id == key.policyId
    requires RunJob(Jobs.CarryOver) !in steps
    requires UsableBalance(s.ledger, key, s.today) <= p.maxBalance
    ensures UsableBalance(Run(s, steps).ledger, key, Run(s, steps).today) <= p.maxBalance
  {
    hide LedgerInv, SchemaInv, Next, UsableBalance, Run;
    CapKeptIff(s, steps, key, p);
    assert steps[..|steps|] == steps;
    assert WithinCap(Run(s, steps[..|steps|]), key, p);
  }
}
