/** Which stage a leave request stands at, who has to act there, and whether an actor may. */
module ApprovalRouting {
  import opened LeaveTypes

  /** The status and the stamps a new request starts with. */
  datatype Routing = Routing(status: Status, teamLead: Option<Stamp>, dept: Option<Stamp>)

  datatype Stage = TeamLeadStage | DeptHeadStage | HrStage

  const STAGE_ORDER: seq<Status> := [PENDING, TEAM_LEAD_COMMENTED, DEPT_APPROVED, APPROVED]

  const CANCELLABLE_STAGES: set<Status> := {PENDING, TEAM_LEAD_COMMENTED, DEPT_APPROVED}

  const REJECTABLE_STAGES: set<Status> := {TEAM_LEAD_COMMENTED, DEPT_APPROVED}

  /** How far a request has come: three steps lead from PENDING to a terminal status. */
  function Rank(status: Status): nat {
    match status
    case PENDING => 0
    case TEAM_LEAD_COMMENTED => 1
    case DEPT_APPROVED => 2
    case _ => 3
  }

  /** A submitter's own stages are stamped with the submitter and skipped; nobody starts beyond
      DEPT_APPROVED, and only a team lead or above starts beyond PENDING. */
  function ResolveInitialRouting(submitterId: Id, role: Role, now: int): (r: Routing)
    ensures r.status in CANCELLABLE_STAGES
    ensures r.teamLead == (if Rank(r.status) >= 1 then Some(Stamp(submitterId, now)) else None)
    ensures r.dept == (if Rank(r.status) >= 2 then Some(Stamp(submitterId, now)) else None)
    ensures r.status == TEAM_LEAD_COMMENTED <==> role == TEAM_LEAD
    ensures r.status == DEPT_APPROVED <==> role == DEPT_HEAD || role == HR_ADMIN
  {
    if role == TEAM_LEAD then
      Routing(TEAM_LEAD_COMMENTED, Some(Stamp(submitterId, now)), None)
    else if role == DEPT_HEAD || role == HR_ADMIN then
      Routing(DEPT_APPROVED, Some(Stamp(submitterId, now)), Some(Stamp(submitterId, now)))
    else
      Routing(PENDING, None, None)
  }

  /** The final approver never has the role that the submitter has. */
  function ResolveFinalApproverRole(submitterRole: Role): (r: Role)
    ensures r != submitterRole
    ensures r == HR_ADMIN || r == TENANT_ADMIN
  {
    if submitterRole == HR_ADMIN then TENANT_ADMIN else HR_ADMIN
  }

  function RequiredRoleForStage(status: Status, submitterRole: Role): (r: Role)
    ensures r == DEPT_HEAD <==> status == TEAM_LEAD_COMMENTED
    ensures status != TEAM_LEAD_COMMENTED ==> r != submitterRole
  {
    if status == TEAM_LEAD_COMMENTED then DEPT_HEAD else ResolveFinalApproverRole(submitterRole)
  }

  function IndexOf(stages: seq<Status>, status: Status): int {
    if stages == [] then -1
    else if stages[0] == status then 0
    else var i := IndexOf(stages[1..], status); if i < 0 then -1 else i + 1
  }

  /** The next stage; APPROVED has none. A status that is no stage has index -1, so REJECTED and
      CANCELLED are sent back to PENDING, which no handler asks for. */
  function NextStatusOnApprove(status: Status): (r: Option<Status>)
    ensures status in CANCELLABLE_STAGES ==> r.Some? && Rank(r.value) == Rank(status) + 1 && r.value in STAGE_ORDER
    ensures r.None? <==> status == APPROVED
    ensures status == REJECTED || status == CANCELLED ==> r == Some(PENDING)
  {
    assert STAGE_ORDER[1..][1..] == [DEPT_APPROVED, APPROVED] && STAGE_ORDER[1..][1..][1..] == [APPROVED];
    assert STAGE_ORDER[1..][1..][1..][1..] == [];
    var i := IndexOf(STAGE_ORDER, status) + 1;
    if i < |STAGE_ORDER| then Some(STAGE_ORDER[i]) else None
  }

  /** Exactly the statuses that the frontend shows a current stage for, and those short of a terminal rank. */
  predicate IsCancellable(status: Status)
    ensures IsCancellable(status) <==> DeriveCurrentStage(status).Some?
    ensures IsCancellable(status) <==> Rank(status) < 3
  {
    status in CANCELLABLE_STAGES
  }

  function DeriveCurrentStage(status: Status): Option<Stage> {
    match status
    case PENDING => Some(TeamLeadStage)
    case TEAM_LEAD_COMMENTED => Some(DeptHeadStage)
    case DEPT_APPROVED => Some(HrStage)
    case _ => None
  }

  // ---- Lookups by key ----

  function UserIndex(users: seq<User>, id: Id): (r: Option<nat>)
    ensures r.Some? ==> r.value < |users| && users[r.value].id == id
    ensures r.Some? ==> forall j :: 0 <= j < r.value ==> users[j].id != id
    ensures r.None? ==> forall j :: 0 <= j < |users| ==> users[j].id != id
  {
    if users == [] then None
    else
      var r := UserIndex(users[..|users| - 1], id);
      if r.Some? then r else if users[|users| - 1].id == id then Some(|users| - 1) else None
  }

  function FindUser(users: seq<User>, id: Id): (r: Option<User>)
    ensures r.Some? ==> r.value in users && r.value.id == id
    ensures r.None? ==> forall u <- users :: u.id != id
  {
    match UserIndex(users, id)
    case Some(i) => Some(users[i])
    case None => None
  }

  function FindTenant(tenants: seq<Tenant>, id: Id): (r: Option<Tenant>)
    ensures r.Some? ==> r.value in tenants && r.value.id == id
    ensures r.None? ==> forall t <- tenants :: t.id != id
  {
    if tenants == [] then None
    else
      var r := FindTenant(tenants[..|tenants| - 1], id);
      if r.Some? then r else if tenants[|tenants| - 1].id == id then Some(tenants[|tenants| - 1]) else None
  }

  // ---- Authorization ----

  /** Team leads and department heads act within their department, HR admins only from the tenant's HR
      department. The two departments are compared as they stand, so both being unset agree; a tenant
      that does not exist agrees with nothing. */
  predicate InDepartmentOrHrScope(actor: User, tenants: seq<Tenant>, tenantId: Id, departmentId: Id) {
    && (actor.role == TEAM_LEAD || actor.role == DEPT_HEAD ==> actor.departmentId == Some(departmentId))
    && (actor.role == HR_ADMIN ==>
          var tenant := FindTenant(tenants, tenantId);
          tenant.Some? && actor.departmentId == tenant.value.hrDepartmentId)
  }

  /** Success means that the actor exists, has exactly the required role, and is in scope; the error is
      the first of these that fails. */
  function AssertCanAct(users: seq<User>, tenants: seq<Tenant>, actorId: Id, tenantId: Id,
                        departmentId: Id, requiredRole: Role): (r: Result<User>)
    ensures r.Ok? ==> FindUser(users, actorId) == Some(r.value) && r.value.role == requiredRole
    ensures r.Ok? && requiredRole in {TEAM_LEAD, DEPT_HEAD} ==> r.value.departmentId == Some(departmentId)
    ensures r == Err(NotFound) <==> FindUser(users, actorId).None?
  {
    match FindUser(users, actorId)
    case None => Err(NotFound)
    case Some(actor) =>
      if actor.role != requiredRole then Err(Forbidden)
      else if !InDepartmentOrHrScope(actor, tenants, tenantId, departmentId) then Err(Forbidden)
      else Ok(actor)
  }
}
