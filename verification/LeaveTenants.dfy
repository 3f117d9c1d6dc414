/** Tenants stay apart: what the handlers check of it themselves, and what rests on commands carrying their
    actor's own tenant, as the controller takes both from one token. */
module LeaveTenants {
  import opened LeaveTypes
  import opened Ledger
  import opened ApprovalRouting
  import opened LeaveHandlers
  import opened LeaveRuns
  import opened LeaveInvariants
  import opened LeaveSafety

  function ActorOf(c: Command): Id {
    if c.SubmitCommand? then c.userId else c.actorId
  }

  predicate InTenant(users: seq<User>, id: Id, tenantId: Id) {
    var u := FindUser(users, id);
    u.Some? && u.value.tenantId == tenantId
  }

  /** The acting user, if there is one, belongs to the tenant that the command names. */
  predicate ActsAtHome(users: seq<User>, c: Command) {
    FindUser(users, ActorOf(c)).Some? ==> InTenant(users, ActorOf(c), c.tenantId)
  }

  // ---- Runs of commands that carry their actor's tenant ----

  predicate StampWithin(users: seq<User>, stamp: Option<Stamp>, tenantId: Id) {
    stamp.Some? ==> InTenant(users, stamp.value.approver, tenantId)
  }

  /** The submitter and everyone who stamped the request belong to its tenant. */
  predicate KeptWithin(users: seq<User>, r: LeaveRequest) {
    && InTenant(users, r.userId, r.tenantId)
    && StampWithin(users, r.teamLead, r.tenantId) && StampWithin(users, r.dept, r.tenantId)
    && StampWithin(users, r.hr, r.tenantId) && StampWithin(users, r.tenantAdmin, r.tenantId)
  }

  predicate TenantInv(s: State) {
    forall r <- s.requests :: KeptWithin(s.users, r)
  }

  /** The same users, by key and tenant. */
  predicate SameTenants(a: seq<User>, b: seq<User>) {
    |a| == |b| && forall i :: 0 <= i < |a| ==> a[i].id == b[i].id && a[i].tenantId == b[i].tenantId
  }

  lemma SameTenantsFind(a: seq<User>, b: seq<User>, id: Id, tenantId: Id)
    requires SameTenants(a, b)
    ensures InTenant(a, id, tenantId) <==> InTenant(b, id, tenantId)
    ensures FindUser(a, id).Some? <==> FindUser(b, id).Some?
  {
    UserIndexSame(a, b, id);
  }

  lemma SameTenantsKeep(a: seq<User>, b: seq<User>, r: LeaveRequest)
    requires SameTenants(a, b) && KeptWithin(a, r)
    ensures KeptWithin(b, r)
  {
    hide InTenant;
    forall id: Id
      ensures InTenant(a, id, r.tenantId) <==> InTenant(b, id, r.tenantId)
    {
      SameTenantsFind(a, b, id, r.tenantId);
    }
  }

  lemma StepKeepsUsersTenants(s: State, step: Step)
    ensures SameTenants(s.users, Next(s, step).users)
  {
    match step
    case Act(c) =>
      if Handle(s, c).result.Err? {
        FailureChangesNothing(s, c);
      } else if c.SubmitCommand? {
        SubmitEffect(s, c);
      } else {
        var i := ActionEffect(s, c);
      }
    case UpdateUser(_, _, _, _) =>
    case RunJob(_) =>
    case PassDays(_) =>
  }

  lemma StampingKeepsWithin(s: State, q: LeaveRequest, r: LeaveRequest, actor: User)
    requires KeptWithin(s.users, q) && SameRequest(q, r) && StampedAtStage(s, q, r, actor)
    requires InTenant(s.users, actor.id, q.tenantId)
    ensures KeptWithin(s.users, r)
  {
    hide InTenant;
  }

  lemma CancellingKeepsWithin(users: seq<User>, q: LeaveRequest)
    requires KeptWithin(users, q)
    ensures KeptWithin(users, q.(status := CANCELLED))
  {
    hide InTenant;
  }

  lemma ActionKeepsTenants(s: State, c: Command)
    requires TenantInv(s) && !c.SubmitCommand? && Handle(s, c).result.Ok? && ActsAtHome(s.users, c)
    ensures TenantInv(Handle(s, c).state)
  {
    var i := ActionEffect(s, c);
    StageDecidesActor(s, c, i);
    assert s.requests[i] in s.requests;
    hide Handle, InTenant, Qualified, LedgerAfter, MayMove, KeptWithin, StampedAtStage;
    var t, r := Handle(s, c).state, Handle(s, c).result.value;
    if c.CancelCommand? {
      CancellingKeepsWithin(s.users, s.requests[i]);
    } else {
      StampingKeepsWithin(s, s.requests[i], r, FindUser(s.users, c.actorId).value);
    }
    forall q | q in t.requests
      ensures KeptWithin(s.users, q)
    {
      if q != r {
        assert q in s.requests;
      }
    }
  }

  lemma StepKeepsTenants(s: State, step: Step)
    requires TenantInv(s) && (step.Act? ==> ActsAtHome(s.users, step.command))
    ensures TenantInv(Next(s, step))
  {
    match step
    case Act(c) =>
      if Handle(s, c).result.Err? {
        FailureChangesNothing(s, c);
      } else if c.SubmitCommand? {
        SubmitEffect(s, c);
        SubmitStampsOwn(s, c);
      } else {
        ActionKeepsTenants(s, c);
      }
    case UpdateUser(_, _, _, _) =>
      StepKeepsUsersTenants(s, step);
      forall r | r in s.requests
        ensures KeptWithin(Next(s, step).users, r)
      {
        SameTenantsKeep(s.users, Next(s, step).users, r);
      }
    case RunJob(_) =>
    case PassDays(_) =>
  }

  /** A new request carries no stamps but its submitter's. */
  lemma SubmitStampsOwn(s: State, c: Command)
    requires c.SubmitCommand? && Handle(s, c).result.Ok?
    ensures var r := Handle(s, c).result.value;
            && (r.teamLead.Some? ==> r.teamLead.value.approver == r.userId)
            && (r.dept.Some? ==> r.dept.value.approver == r.userId)
            && r.hr.None? && r.tenantAdmin.None?
  {
  }

  lemma {:induction false} RunsKeepUsersTenants(s: State, steps: seq<Step>)
    ensures SameTenants(s.users, Run(s, steps).users)
  {
    hide Next;
    if steps != [] {
      RunsKeepUsersTenants(s, steps[..|steps| - 1]);
      StepKeepsUsersTenants(Run(s, steps[..|steps| - 1]), steps[|steps| - 1]);
    }
  }

  /** If every command of a run carries its actor's own tenant, then in every reachable state each request's
      submitter, and everyone who ever stamped it, belongs to the request's tenant. */
  lemma {:induction false} RunsKeepTenants(s: State, steps: seq<Step>)
    requires TenantInv(s)
    requires forall step <- steps :: step.Act? ==> ActsAtHome(s.users, step.command)
    ensures TenantInv(Run(s, steps))
  {
    hide TenantInv, Next, InTenant;
    if steps != [] {
      var init, last := steps[..|steps| - 1], steps[|steps| - 1];
      assert last in steps;
      RunsKeepTenants(s, init);
      RunsKeepUsersTenants(s, init);
      if last.Act? {
        SameTenantsFind(s.users, Run(s, init).users, ActorOf(last.command), last.command.tenantId);
      }
      StepKeepsTenants(Run(s, init), last);
    }
  }

  // ---- What the handlers themselves keep out ----

  predicate DistinctDepartments(departments: seq<Department>) {
    forall i, j :: 0 <= i < j < |departments| ==> departments[i].id != departments[j].id
  }

  predicate HasDepartment(s: State, id: Id, tenantId: Id) {
    FindDepartment(s.departments, id, tenantId).Some?
  }

  /** Departments are unique by key; users, requests and tenants refer to departments of their own tenant; and
      every request was submitted from its own tenant. */
  predicate DepartmentInv(s: State) {
    && DistinctDepartments(s.departments)
    && (forall u <- s.users :: u.departmentId.Some? ==> HasDepartment(s, u.departmentId.value, u.tenantId))
    && (forall r <- s.requests ::
          HasDepartment(s, r.departmentId, r.tenantId) && InTenant(s.users, r.userId, r.tenantId))
    && (forall t <- s.tenants :: t.hrDepartmentId.Some? ==> HasDepartment(s, t.hrDepartmentId.value, t.id))
  }

  lemma {:induction false} FindDepartmentIs(departments: seq<Department>, id: Id, tenantId: Id)
    ensures var d := FindDepartment(departments, id, tenantId);
            d.Some? ==> d.value in departments && d.value.id == id && d.value.tenantId == tenantId
  {
    if departments != [] {
      FindDepartmentIs(departments[..|departments| - 1], id, tenantId);
    }
  }

  /** A department belongs to one tenant. */
  lemma OneTenantPerDepartment(s: State, id: Id, a: Id, b: Id)
    requires DistinctDepartments(s.departments) && HasDepartment(s, id, a) && HasDepartment(s, id, b)
    ensures a == b
  {
    FindDepartmentIs(s.departments, id, a);
    FindDepartmentIs(s.departments, id, b);
    var d, e := FindDepartment(s.departments, id, a).value, FindDepartment(s.departments, id, b).value;
    var i :| 0 <= i < |s.departments| && s.departments[i] == d;
    var j :| 0 <= j < |s.departments| && s.departments[j] == e;
    assert i == j;
  }

  lemma StepKeepsDepartments(s: State, step: Step)
    requires DepartmentInv(s)
    ensures DepartmentInv(Next(s, step))
    ensures Next(s, step).departments == s.departments
  {
    match step
    case Act(c) =>
      if Handle(s, c).result.Err? {
        FailureChangesNothing(s, c);
      } else if c.SubmitCommand? {
        SubmitEffect(s, c);
        SubmissionsAreAtHome(s, c);
      } else {
        var i := ActionEffect(s, c);
        hide Handle, InTenant, HasDepartment, DistinctDepartments;
        ActionKeepsDepartments(s, c);
      }
    case UpdateUser(id, tenantId, role, departmentId) => UpdateKeepsDepartments(s, id, tenantId, role, departmentId);
    case RunJob(_) =>
    case PassDays(_) =>
  }

  lemma ActionKeepsDepartments(s: State, c: Command)
    requires DepartmentInv(s) && !c.SubmitCommand? && Handle(s, c).result.Ok?
    ensures DepartmentInv(Handle(s, c).state)
  {
    var i := ActionEffect(s, c);
    var t, r := Handle(s, c).state, Handle(s, c).result.value;
    hide Handle, InTenant, FindDepartment, LedgerAfter;
    assert s.requests[i] in s.requests;
    forall q | q in t.requests
      ensures HasDepartment(t, q.departmentId, q.tenantId) && InTenant(t.users, q.userId, q.tenantId)
    {
      if q != r {
        assert q in s.requests;
      }
      assert HasDepartment(s, q.departmentId, q.tenantId);
    }
    forall u | u in t.users && u.departmentId.Some?
      ensures HasDepartment(t, u.departmentId.value, u.tenantId)
    {
      assert HasDepartment(s, u.departmentId.value, u.tenantId);
    }
    forall tenant | tenant in t.tenants && tenant.hrDepartmentId.Some?
      ensures HasDepartment(t, tenant.hrDepartmentId.value, tenant.id)
    {
      assert HasDepartment(s, tenant.hrDepartmentId.value, tenant.id);
    }
  }

  lemma UpdateKeepsDepartments(s: State, id: Id, tenantId: Id, role: Option<Role>, departmentId: Option<Option<Id>>)
    requires DepartmentInv(s)
    ensures DepartmentInv(s.(users := UpdatedUsers(s, id, tenantId, role, departmentId)))
  {
    var users := UpdatedUsers(s, id, tenantId, role, departmentId);
    var t := s.(users := users);
    StepKeepsUsersTenants(s, UpdateUser(id, tenantId, role, departmentId));
    hide FindDepartment, InTenant;
    forall u | u in users && u.departmentId.Some?
      ensures HasDepartment(t, u.departmentId.value, u.tenantId)
    {
      if u in s.users {
        assert HasDepartment(s, u.departmentId.value, u.tenantId);
      } else {
        var i := UserIndex(s.users, id).value;
        assert s.users[i] in s.users && u == users[i];
        assert departmentId.None? ==> HasDepartment(s, u.departmentId.value, u.tenantId);
      }
    }
    forall r | r in s.requests
      ensures HasDepartment(t, r.departmentId, r.tenantId) && InTenant(users, r.userId, r.tenantId)
    {
      SameTenantsFind(s.users, users, r.userId, r.tenantId);
      assert HasDepartment(s, r.departmentId, r.tenantId);
    }
    forall tenant | tenant in s.tenants && tenant.hrDepartmentId.Some?
      ensures HasDepartment(t, tenant.hrDepartmentId.value, tenant.id)
    {
      assert HasDepartment(s, tenant.hrDepartmentId.value, tenant.id);
    }
  }

  /** Departments stay within their tenants in every run, also one of commands that name foreign tenants. */
  lemma {:induction false} RunsKeepDepartments(s: State, steps: seq<Step>)
    requires DepartmentInv(s)
    ensures DepartmentInv(Run(s, steps))
  {
    hide DepartmentInv, Next;
    if steps != [] {
      RunsKeepDepartments(s, steps[..|steps| - 1]);
      StepKeepsDepartments(Run(s, steps[..|steps| - 1]), steps[|steps| - 1]);
    }
  }

  /** Nobody submits to a tenant other than their own. */
  lemma SubmissionsAreAtHome(s: State, c: Command)
    requires DepartmentInv(s) && c.SubmitCommand? && Handle(s, c).result.Ok?
    ensures InTenant(s.users, c.userId, c.tenantId) && HasDepartment(s, c.dto.departmentId, c.tenantId)
  {
    hide UsableBalance, TotalDays, FindUser;
    var u := FindUser(s.users, c.userId).value;
    OneTenantPerDepartment(s, c.dto.departmentId, u.tenantId, c.tenantId);
  }

  /** The request awaits the final decision in the tenant, by a tenant admin if the submitter is an HR admin, and else
      by an HR admin from a department that neither the stranger nor the tenant has. */
  predicate MayDecideAbroad(s: State, q: LeaveRequest, tenantId: Id, stranger: User) {
    var submitter, tenant := FindUser(s.users, q.userId), FindTenant(s.tenants, tenantId);
    && q.tenantId == tenantId && q.status == DEPT_APPROVED && submitter.Some?
    && if submitter.value.role == HR_ADMIN then stranger.role == TENANT_ADMIN
       else
         && stranger.role == HR_ADMIN && stranger.departmentId.None?
         && tenant.Some? && tenant.value.hrDepartmentId.None?
  }

  /** A user of another tenant succeeds exactly in giving, or refusing, the final approval, and there exactly as a
      tenant admin on an HR admin's request, or as an HR admin without a department where the tenant has no HR
      department. Every other command of a stranger fails. */
  lemma StrangerSucceedsExactlyIf(s: State, c: Command, stranger: User)
    requires SchemaInv(s) && DepartmentInv(s)
    requires FindUser(s.users, ActorOf(c)) == Some(stranger) && stranger.tenantId != c.tenantId
    ensures Handle(s, c).result.Ok? <==>
            && (c.HrApproveCommand? || c.RejectCommand?)
            && var i := RequestIndex(s.requests, c.id);
               i.Some? && MayDecideAbroad(s, s.requests[i.value], c.tenantId, stranger)
  {
    if c.SubmitCommand? {
      if Handle(s, c).result.Ok? {
        SubmissionsAreAtHome(s, c);
      }
    } else {
      var i := RequestIndex(s.requests, c.id);
      if i.None? {
        MissingRequestFails(s, c);
      } else {
        StrangerActs(s, c, i.value, stranger);
      }
    }
  }

  lemma MissingRequestFails(s: State, c: Command)
    requires !c.SubmitCommand? && RequestIndex(s.requests, c.id).None?
    ensures Handle(s, c).result.Err?
  {
  }

  lemma StrangerActs(s: State, c: Command, i: nat, stranger: User)
    requires SchemaInv(s) && DepartmentInv(s) && !c.SubmitCommand? && RequestIndex(s.requests, c.id) == Some(i)
    requires FindUser(s.users, c.actorId) == Some(stranger) && stranger.tenantId != c.tenantId
    ensures Handle(s, c).result.Ok? <==>
            (c.HrApproveCommand? || c.RejectCommand?) && MayDecideAbroad(s, s.requests[i], c.tenantId, stranger)
  {
    SucceedsExactlyIf(s, c, i);
    var q := s.requests[i];
    assert q in s.requests && stranger in s.users;
    hide Handle, FindUser, FindTenant, SchemaInv;
    if q.tenantId == c.tenantId {
      if stranger.departmentId == Some(q.departmentId) {
        OneTenantPerDepartment(s, q.departmentId, stranger.tenantId, q.tenantId);
      }
      var tenant := FindTenant(s.tenants, q.tenantId);
      if tenant.Some? && stranger.departmentId.Some? && stranger.departmentId == tenant.value.hrDepartmentId {
        OneTenantPerDepartment(s, stranger.departmentId.value, stranger.tenantId, q.tenantId);
      }
    }
  }

  const HR_SUBMITTER := User("h", "t", HR_ADMIN, Some("d"))
  const FOREIGN_ADMIN := User("a", "u", TENANT_ADMIN, None)

  function AwaitingFinalApproval(): State {
    var stamp := Some(Stamp("h", 0));
    State([HR_SUBMITTER, FOREIGN_ADMIN], [Department("d", "t", true)], [Tenant("t", Some("d")), Tenant("u", None)],
          [Policy("p", "t", Annual, Yearly, 100, 100, NoCarryOver, None, true, ["d"])],
          [LeaveRequest("r", "h", "t", "p", "d", 4, 4, 100, "", DEPT_APPROVED, stamp, stamp, None, None, None)],
          [], [], 0)
  }

  /** So the handlers alone do not keep tenants apart: the admin of one tenant gives the final approval in another,
      if a command names it. */
  lemma AwaitingIsValid()
    ensures SchemaInv(AwaitingFinalApproval()) && DepartmentInv(AwaitingFinalApproval())
    ensures var s := AwaitingFinalApproval();
            && FindUser(s.users, "h") == Some(HR_SUBMITTER) && FindUser(s.users, "a") == Some(FOREIGN_ADMIN)
            && RequestIndex(s.requests, "r") == Some(0)
  {
    var s := AwaitingFinalApproval();
    assert s.users[..1] == [HR_SUBMITTER] && s.users[..1][..0] == [];
    assert UserIndex(s.users[..1], "h") == Some(0) && UserIndex(s.users[..1], "a") == None;
    assert s.departments[..0] == [] && FindDepartment(s.departments, "d", "t") == Some(s.departments[0]);
    assert s.requests[..0] == [];
  }

  lemma StrangerApproves()
    ensures var s, c := AwaitingFinalApproval(), HrApproveCommand("r", "t", "a");
            && SchemaInv(s) && DepartmentInv(s) && !ActsAtHome(s.users, c)
            && Handle(s, c).result.Ok? && !KeptWithin(s.users, Handle(s, c).result.value)
  {
    var s, c := AwaitingFinalApproval(), HrApproveCommand("r", "t", "a");
    AwaitingIsValid();
    hide SchemaInv, DepartmentInv, FindUser, Handle, FindTenant;
    StrangerSucceedsExactlyIf(s, c, FOREIGN_ADMIN);
    StageDecidesActor(s, c, 0);
    var j := ActionEffect(s, c);
  }
}
