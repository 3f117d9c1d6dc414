/** The leave commands as functions of the database: what each handler leaves behind and replies. */
module LeaveHandlers {
  import opened LeaveTypes
  import opened Ledger
  import opened ApprovalRouting
  import opened LeaveDays

  datatype State = State(
    users: seq<User>, departments: seq<Department>, tenants: seq<Tenant>, policies: seq<Policy>,
    requests: seq<LeaveRequest>, ledger: seq<LedgerRow>, comments: seq<Comment>, today: int)

  /** The new state with the reply. A failing command leaves the state as it was. */
  datatype Reply = Reply(state: State, result: Result<LeaveRequest>)

  datatype SubmitDto = SubmitDto(
    policyId: Id, departmentId: Id, startDate: int, endDate: int, isHalfDay: bool, reason: string)

  // ---- Lookups ----

  function RequestIndex(requests: seq<LeaveRequest>, id: Id): (r: Option<nat>)
    ensures r.Some? ==> r.value < |requests| && requests[r.value].id == id
    ensures r.Some? ==> forall j :: 0 <= j < r.value ==> requests[j].id != id
    ensures r.None? ==> forall j :: 0 <= j < |requests| ==> requests[j].id != id
  {
    if requests == [] then None
    else
      var r := RequestIndex(requests[..|requests| - 1], id);
      if r.Some? then r else if requests[|requests| - 1].id == id then Some(|requests| - 1) else None
  }

  /** `findFirst` by id and tenant; ids are unique, so a row of another tenant hides no further row. */
  function FindRequest(requests: seq<LeaveRequest>, id: Id, tenantId: Id): (r: Option<nat>)
    ensures r.Some? ==> r.value < |requests| && requests[r.value].id == id && requests[r.value].tenantId == tenantId
  {
    var r := RequestIndex(requests, id);
    if r.Some? && requests[r.value].tenantId == tenantId then r else None
  }

  predicate HasActivePolicy(policies: seq<Policy>, id: Id, tenantId: Id) {
    exists p <- policies :: p.id == id && p.tenantId == tenantId && p.isActive
  }

  function FindDepartment(departments: seq<Department>, id: Id, tenantId: Id): Option<Department> {
    if departments == [] then None
    else
      var r := FindDepartment(departments[..|departments| - 1], id, tenantId);
      var d := departments[|departments| - 1];
      if r.Some? then r else if d.id == id && d.tenantId == tenantId then Some(d) else None
  }

  // ---- Submitting ----

  /** Half a day, or the weekdays of the range, in hundredths. */
  function TotalDays(dto: SubmitDto): nat {
    if dto.isHalfDay then 50 else 100 * WeekdaysBetween(dto.startDate, dto.endDate)
  }

  /** The checks that come before the transaction. */
  function SubmitError(s: State, dto: SubmitDto, tenantId: Id, userId: Id): Option<Error> {
    var department := FindDepartment(s.departments, dto.departmentId, tenantId);
    var submitter := FindUser(s.users, userId);
    if !HasActivePolicy(s.policies, dto.policyId, tenantId) then Some(NotFound)
    else if department.None? then Some(NotFound)
    else if !department.value.isActive then Some(BadRequest)
    else if submitter.None? then Some(NotFound)
    else if submitter.value.departmentId != Some(dto.departmentId) then Some(BadRequest)
    else if dto.endDate < dto.startDate then Some(BadRequest)
    else None
  }

  function NewRequest(newId: Id, dto: SubmitDto, tenantId: Id, userId: Id, role: Role, today: int): LeaveRequest {
    var routing := ResolveInitialRouting(userId, role, today);
    LeaveRequest(newId, userId, tenantId, dto.policyId, dto.departmentId, dto.startDate, dto.endDate,
                 TotalDays(dto), dto.reason, routing.status, routing.teamLead, routing.dept, None, None, None)
  }

  function Reservation(r: LeaveRequest): LedgerRow {
    LedgerRow(r.tenantId, r.userId, r.policyId, DEDUCTION, -r.totalDays, true, r.startDate, Some(r.id))
  }

  /** newId is the key that the database generates; a key in use makes the insert fail. */
  function Submit(s: State, newId: Id, dto: SubmitDto, tenantId: Id, userId: Id): Reply {
    var error := SubmitError(s, dto, tenantId, userId);
    var submitter := FindUser(s.users, userId);
    if error.Some? then Reply(s, Err(error.value))
    else if RequestIndex(s.requests, newId).Some? then Reply(s, Err(UniqueViolation))
    else
      var created := NewRequest(newId, dto, tenantId, userId, submitter.value.role, s.today);
      if UsableBalance(s.ledger, Key(tenantId, userId, dto.policyId), s.today) < created.totalDays then
        Reply(s, Err(BadRequest))
      else
        Reply(s.(requests := s.requests + [created], ledger := s.ledger + [Reservation(created)]), Ok(created))
  }

  // ---- Acting on a request ----

  function TeamLeadComment(s: State, id: Id, tenantId: Id, actorId: Id, comment: string): Reply {
    match FindRequest(s.requests, id, tenantId)
    case None => Reply(s, Err(NotFound))
    case Some(i) =>
      var r := s.requests[i];
      if r.status != PENDING then Reply(s, Err(BadRequest))
      else
        match AssertCanAct(s.users, s.tenants, actorId, tenantId, r.departmentId, TEAM_LEAD)
        case Err(e) => Reply(s, Err(e))
        case Ok(_) =>
          var updated := r.(status := TEAM_LEAD_COMMENTED, teamLead := Some(Stamp(actorId, s.today)));
          Reply(s.(requests := s.requests[i := updated], comments := s.comments + [Comment(id, actorId, comment)]),
                Ok(updated))
  }

  function DeptApprove(s: State, id: Id, tenantId: Id, actorId: Id, comment: Option<string>): Reply {
    match FindRequest(s.requests, id, tenantId)
    case None => Reply(s, Err(NotFound))
    case Some(i) =>
      var r := s.requests[i];
      if r.status != TEAM_LEAD_COMMENTED then Reply(s, Err(BadRequest))
      else
        match AssertCanAct(s.users, s.tenants, actorId, tenantId, r.departmentId, DEPT_HEAD)
        case Err(e) => Reply(s, Err(e))
        case Ok(_) =>
          // an omitted comment is `undefined`, which an update leaves alone
          var updated := r.(status := DEPT_APPROVED, dept := Some(Stamp(actorId, s.today)),
                            deptComment := if comment.Some? then comment else r.deptComment);
          Reply(s.(requests := s.requests[i := updated]), Ok(updated))
  }

  /** The stamp columns that belong to the role that had to act. */
  function StampFor(r: LeaveRequest, role: Role, stamp: Stamp): LeaveRequest {
    match role
    case DEPT_HEAD => r.(dept := Some(stamp))
    case HR_ADMIN => r.(hr := Some(stamp))
    case TENANT_ADMIN => r.(tenantAdmin := Some(stamp))
    case _ => r
  }

  function HrApprove(s: State, id: Id, tenantId: Id, actorId: Id): Reply {
    match FindRequest(s.requests, id, tenantId)
    case None => Reply(s, Err(NotFound))
    case Some(i) =>
      var r := s.requests[i];
      var submitter := FindUser(s.users, r.userId);
      if submitter.None? then Reply(s, Err(Inconsistent))
      else if r.status != DEPT_APPROVED then Reply(s, Err(BadRequest))
      else
        var role := ResolveFinalApproverRole(submitter.value.role);
        match AssertCanAct(s.users, s.tenants, actorId, tenantId, r.departmentId, role)
        case Err(e) => Reply(s, Err(e))
        case Ok(_) =>
          var updated := StampFor(r, role, Stamp(actorId, s.today)).(status := APPROVED);
          Reply(s.(requests := s.requests[i := updated], ledger := SettlePending(s.ledger, id)), Ok(updated))
  }

  function Reject(s: State, id: Id, tenantId: Id, actorId: Id, reason: Option<string>): Reply {
    match FindRequest(s.requests, id, tenantId)
    case None => Reply(s, Err(NotFound))
    case Some(i) =>
      var r := s.requests[i];
      var submitter := FindUser(s.users, r.userId);
      if submitter.None? then Reply(s, Err(Inconsistent))
      else if r.status !in REJECTABLE_STAGES then Reply(s, Err(BadRequest))
      else
        var role := RequiredRoleForStage(r.status, submitter.value.role);
        match AssertCanAct(s.users, s.tenants, actorId, tenantId, r.departmentId, role)
        case Err(e) => Reply(s, Err(e))
        case Ok(_) =>
          var updated := StampFor(r, role, Stamp(actorId, s.today)).(status := REJECTED);
          var comments := if reason.Some? && reason.value != "" then [Comment(id, actorId, reason.value)] else [];
          Reply(s.(requests := s.requests[i := updated], comments := s.comments + comments,
                   ledger := DropPending(s.ledger, id)), Ok(updated))
  }

  function Cancel(s: State, id: Id, tenantId: Id, requesterId: Id): Reply {
    match FindRequest(s.requests, id, tenantId)
    case None => Reply(s, Err(NotFound))
    case Some(i) =>
      var r := s.requests[i];
      if r.userId != requesterId then Reply(s, Err(Forbidden))
      else if !IsCancellable(r.status) then Reply(s, Err(BadRequest))
      else
        var updated := r.(status := CANCELLED);
        Reply(s.(requests := s.requests[i := updated], ledger := DropPending(s.ledger, id)), Ok(updated))
  }
}
