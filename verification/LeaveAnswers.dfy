/** What every command answers, stated over the rows of the tables: the checks in the order in which they are made,
    with the error of the first that fails, and the columns that a success writes. */
module LeaveAnswers {
  import opened LeaveTypes
  import opened Ledger
  import opened ApprovalRouting
  import opened LeaveHandlers
  import opened LeaveRuns
  import opened LeaveInvariants
  import opened LeaveDays
  import opened LeaveSafety
  import opened LeaveTenants

  /** A check that has to hold, and the error if it does not. */
  datatype Check = Check(holds: bool, error: Error)

  /** The error of the first check that fails. */
  function FirstFailure(checks: seq<Check>): Option<Error> {
    if checks == [] then None
    else if !checks[0].holds then Some(checks[0].error)
    else FirstFailure(checks[1..])
  }

  /** The result is the error of the first check that fails, and a success if none does. */
  predicate Answers<T>(result: Result<T>, checks: seq<Check>) {
    match FirstFailure(checks)
    case Some(e) => result == Err(e)
    case None => result.Ok?
  }

  lemma {:induction false} NoFailure(checks: seq<Check>)
    ensures FirstFailure(checks).None? <==> forall check <- checks :: check.holds
  {
    if checks != [] {
      NoFailure(checks[1..]);
      assert checks == [checks[0]] + checks[1..];
    }
  }

  // ---- Rows by their columns ----

  /** The tables' unique keys. */
  predicate UniqueKeys(s: State) {
    && SchemaInv(s) && DistinctDepartments(s.departments) && UniqueRequests(s.requests)
    && forall i, j :: 0 <= i < j < |s.tenants| ==> s.tenants[i].id != s.tenants[j].id
  }

  lemma FindUserIs(s: State, u: User)
    requires UniqueKeys(s) && u in s.users
    ensures FindUser(s.users, u.id) == Some(u)
  {
    hide DistinctDepartments, UniqueRequests;
    var found := FindUser(s.users, u.id).value;
    var i :| 0 <= i < |s.users| && s.users[i] == u;
    var j :| 0 <= j < |s.users| && s.users[j] == found;
    assert i == j;
  }

  lemma {:induction false} FindDepartmentOf(departments: seq<Department>, d: Department)
    requires DistinctDepartments(departments) && d in departments
    ensures FindDepartment(departments, d.id, d.tenantId) == Some(d)
  {
    var n := |departments| - 1;
    assert departments == departments[..n] + [departments[n]];
    if d in departments[..n] {
      FindDepartmentOf(departments[..n], d);
    } else {
      FindDepartmentIs(departments[..n], d.id, d.tenantId);
    }
  }

  lemma FindDepartmentOnlyIf(departments: seq<Department>, id: Id, tenantId: Id)
    requires DistinctDepartments(departments)
    ensures FindDepartment(departments, id, tenantId).Some? <==>
            exists d <- departments :: d.id == id && d.tenantId == tenantId
    ensures forall d <- departments :: d.id == id && d.tenantId == tenantId ==>
                                         FindDepartment(departments, id, tenantId) == Some(d)
  {
    hide DistinctDepartments;
    FindDepartmentIs(departments, id, tenantId);
    forall d | d in departments && d.id == id && d.tenantId == tenantId
      ensures FindDepartment(departments, id, tenantId) == Some(d)
    {
      FindDepartmentOf(departments, d);
    }
  }

  lemma FindRequestIs(s: State, r: LeaveRequest)
    requires UniqueKeys(s) && r in s.requests
    ensures var i := FindRequest(s.requests, r.id, r.tenantId); i.Some? && s.requests[i.value] == r
  {
    hide SchemaInv, DistinctDepartments;
    var i :| 0 <= i < |s.requests| && s.requests[i] == r;
  }

  lemma FindRequestOnlyIf(s: State, id: Id, tenantId: Id)
    requires UniqueKeys(s)
    ensures FindRequest(s.requests, id, tenantId).Some? <==>
            exists r <- s.requests :: r.id == id && r.tenantId == tenantId
  {
    hide UniqueKeys;
    var i := FindRequest(s.requests, id, tenantId);
    if i.Some? {
      assert s.requests[i.value] in s.requests;
    }
    if r :| r in s.requests && r.id == id && r.tenantId == tenantId {
      FindRequestIs(s, r);
    }
  }

  // ---- Submitting ----

  /** The days asked for, in hundredths: half a day, or the weekdays of the range. */
  function DaysAsked(dto: SubmitDto): int {
    if dto.isHalfDay then 50 else 100 * WeekdaysBetween(dto.startDate, dto.endDate)
  }

  /** What a submission has to meet, in this order. */
  function SubmitChecks(s: State, newId: Id, dto: SubmitDto, tenantId: Id, userId: Id): seq<Check> {
    [ Check(exists p <- s.policies :: p.id == dto.policyId && p.tenantId == tenantId && p.isActive, NotFound),
      Check(exists d <- s.departments :: d.id == dto.departmentId && d.tenantId == tenantId, NotFound),
      Check(exists d <- s.departments :: d.id == dto.departmentId && d.tenantId == tenantId && d.isActive, BadRequest),
      Check(exists u <- s.users :: u.id == userId, NotFound),
      Check(exists u <- s.users :: u.id == userId && u.departmentId == Some(dto.departmentId), BadRequest),
      Check(dto.startDate <= dto.endDate, BadRequest),
      Check(forall r <- s.requests :: r.id != newId, UniqueViolation),
      Check(DaysAsked(dto) <= UsableBalance(s.ledger, Key(tenantId, userId, dto.policyId), s.today), BadRequest) ]
  }

  lemma FailureOfEight(a: Check, b: Check, c: Check, d: Check, e: Check, f: Check, g: Check, h: Check)
    ensures FirstFailure([a, b, c, d, e, f, g, h]) ==
            if !a.holds then Some(a.error) else if !b.holds then Some(b.error) else if !c.holds then Some(c.error)
            else if !d.holds then Some(d.error) else if !e.holds then Some(e.error) else if !f.holds then Some(f.error)
            else if !g.holds then Some(g.error) else if !h.holds then Some(h.error) else None
  {
    FailureOfFour(e, f, g, h);
    var tail := [e, f, g, h];
    FailureOfTail(d, tail);
    FailureOfTail(c, [d] + tail);
    FailureOfTail(b, [c] + ([d] + tail));
    FailureOfTail(a, [b] + ([c] + ([d] + tail)));
    assert [a] + ([b] + ([c] + ([d] + tail))) == [a, b, c, d, e, f, g, h];
  }

  lemma FailureOfTail(a: Check, tail: seq<Check>)
    ensures FirstFailure([a] + tail) == if !a.holds then Some(a.error) else FirstFailure(tail)
  {
    assert ([a] + tail)[1..] == tail;
  }

  lemma FailureOfFour(a: Check, b: Check, c: Check, d: Check)
    ensures FirstFailure([a, b, c, d]) ==
            if !a.holds then Some(a.error) else if !b.holds then Some(b.error)
            else if !c.holds then Some(c.error) else if !d.holds then Some(d.error) else None
  {
    FailureOfTail(d, []);
    FailureOfTail(c, [d]);
    FailureOfTail(b, [c] + [d]);
    FailureOfTail(a, [b] + ([c] + [d]));
    assert [a] + ([b] + ([c] + [d])) == [a, b, c, d] && [d] + [] == [d];
  }

  /** A submission succeeds exactly if every check holds, and otherwise answers with the error of the first that
      fails. */
  lemma SubmitAnswers(s: State, newId: Id, dto: SubmitDto, tenantId: Id, userId: Id)
    requires UniqueKeys(s)
    ensures Answers(Submit(s, newId, dto, tenantId, userId).result, SubmitChecks(s, newId, dto, tenantId, userId))
  {
    FindDepartmentOnlyIf(s.departments, dto.departmentId, tenantId);
    assert (exists u <- s.users :: u.id == userId) <==> FindUser(s.users, userId).Some?;
    forall u | u in s.users && u.id == userId
      ensures FindUser(s.users, userId) == Some(u)
    {
      FindUserIs(s, u);
    }
    assert (forall r <- s.requests :: r.id != newId) <==> RequestIndex(s.requests, newId).None? by {
      KeyUnused(s.requests, newId);
    }
    var k := SubmitChecks(s, newId, dto, tenantId, userId);
    FailureOfEight(k[0], k[1], k[2], k[3], k[4], k[5], k[6], k[7]);
    hide FirstFailure, UniqueKeys, FindUser, FindDepartment, RequestIndex, UsableBalance, WeekdaysBetween;
  }

  lemma KeyUnused(requests: seq<LeaveRequest>, id: Id)
    ensures (forall r <- requests :: r.id != id) <==> RequestIndex(requests, id).None?
  {
    var i := RequestIndex(requests, id);
    if i.Some? {
      assert requests[i.value] in requests;
    }
  }

  /** So it succeeds exactly if the tenant has the policy and the department, both active, the submitter belongs to the
      department, the dates are in order, the key is new and the usable balance reaches the days. */
  lemma SubmitSucceedsExactlyIf(s: State, newId: Id, dto: SubmitDto, tenantId: Id, userId: Id)
    requires UniqueKeys(s)
    ensures Submit(s, newId, dto, tenantId, userId).result.Ok? <==>
            && (exists p <- s.policies :: p.id == dto.policyId && p.tenantId == tenantId && p.isActive)
            && (exists d <- s.departments :: d.id == dto.departmentId && d.tenantId == tenantId && d.isActive)
            && (exists u <- s.users :: u.id == userId && u.departmentId == Some(dto.departmentId))
            && dto.startDate <= dto.endDate && (forall r <- s.requests :: r.id != newId)
            && DaysAsked(dto) <= UsableBalance(s.ledger, Key(tenantId, userId, dto.policyId), s.today)
  {
    SubmitAnswers(s, newId, dto, tenantId, userId);
    var k := SubmitChecks(s, newId, dto, tenantId, userId);
    FailureOfEight(k[0], k[1], k[2], k[3], k[4], k[5], k[6], k[7]);
    hide FirstFailure, UniqueKeys, Submit, UsableBalance, WeekdaysBetween;
  }

  // ---- Acting on a request ----

  /** The role that a decision on the request takes: team leads first, then department heads, and for the final
      decision an HR admin, or the tenant admin if the submitter is one. */
  function NeededRole(s: State, r: LeaveRequest): Role {
    match r.status
    case PENDING => TEAM_LEAD
    case TEAM_LEAD_COMMENTED => DEPT_HEAD
    case _ => if exists u <- s.users :: u.id == r.userId && u.role == HR_ADMIN then TENANT_ADMIN else HR_ADMIN
  }

  /** Team leads and department heads decide for their department; HR admins if they work in the tenant's HR
      department, where none and none agree; tenant admins anywhere. */
  predicate InScope(s: State, u: User, r: LeaveRequest) {
    match u.role
    case HR_ADMIN => exists t <- s.tenants :: t.id == r.tenantId && u.departmentId == t.hrDepartmentId
    case TENANT_ADMIN => true
    case _ => u.departmentId == Some(r.departmentId)
  }

  /** The stages that each command takes a request from. */
  function Stages(c: Command): set<Status>
    requires !c.SubmitCommand?
  {
    match c
    case CommentCommand(_, _, _, _) => {PENDING}
    case DeptApproveCommand(_, _, _, _) => {TEAM_LEAD_COMMENTED}
    case HrApproveCommand(_, _, _) => {DEPT_APPROVED}
    case RejectCommand(_, _, _, _) => {TEAM_LEAD_COMMENTED, DEPT_APPROVED}
    case CancelCommand(_, _, _) => {PENDING, TEAM_LEAD_COMMENTED, DEPT_APPROVED}
  }

  /** What an action on a request of its tenant has to meet, in this order. */
  function ActionChecks(s: State, c: Command, r: LeaveRequest): seq<Check>
    requires !c.SubmitCommand?
  {
    if c.CancelCommand? then
      [ Check(r.userId == c.actorId, Forbidden),
        Check(r.status in Stages(c), BadRequest) ]
    else
      [ Check(r.status in Stages(c), BadRequest),
        Check(exists u <- s.users :: u.id == c.actorId, NotFound),
        Check(exists u <- s.users :: u.id == c.actorId && u.role == NeededRole(s, r), Forbidden),
        Check(exists u <- s.users :: u.id == c.actorId && u.role == NeededRole(s, r) && InScope(s, u, r), Forbidden) ]
  }

  /** A request that is missing, or of another tenant, answers NotFound. */
  lemma MissingAnswers(s: State, c: Command)
    requires UniqueKeys(s) && !c.SubmitCommand?
    ensures (forall r <- s.requests :: !(r.id == c.id && r.tenantId == c.tenantId)) ==>
              Handle(s, c).result == Err(NotFound)
  {
    FindRequestOnlyIf(s, c.id, c.tenantId);
    hide UniqueKeys;
  }

  lemma FindTenantOnlyIf(s: State, u: User, r: LeaveRequest)
    requires UniqueKeys(s)
    ensures (exists t <- s.tenants :: t.id == r.tenantId && u.departmentId == t.hrDepartmentId) <==>
            FindTenant(s.tenants, r.tenantId).Some? &&
            u.departmentId == FindTenant(s.tenants, r.tenantId).value.hrDepartmentId
  {
    hide SchemaInv, DistinctDepartments, UniqueRequests, FindTenant;
    var found := FindTenant(s.tenants, r.tenantId);
    forall t | t in s.tenants && t.id == r.tenantId
      ensures found == Some(t)
    {
      var i :| 0 <= i < |s.tenants| && s.tenants[i] == t;
      var j :| 0 <= j < |s.tenants| && s.tenants[j] == found.value;
      assert i == j;
    }
  }

  /** The role asked for is the one needed, and the scope asserted is the one described. */
  lemma AssertCanActAnswers(s: State, c: Command, r: LeaveRequest, role: Role)
    requires UniqueKeys(s) && !c.SubmitCommand? && role == NeededRole(s, r)
    ensures var result := AssertCanAct(s.users, s.tenants, c.actorId, r.tenantId, r.departmentId, role);
            if forall u <- s.users :: u.id != c.actorId then result == Err(NotFound)
            else if forall u <- s.users :: !(u.id == c.actorId && u.role == role) then result == Err(Forbidden)
            else if forall u <- s.users :: !(u.id == c.actorId && u.role == role && InScope(s, u, r)) then
              result == Err(Forbidden)
            else result.Ok?
  {
    var found := FindUser(s.users, c.actorId);
    forall u | u in s.users && u.id == c.actorId
      ensures found == Some(u)
    {
      FindUserIs(s, u);
    }
    if found.Some? {
      FindTenantOnlyIf(s, found.value, r);
    }
    hide UniqueKeys, FindUser, FindTenant;
    assert role == TEAM_LEAD || role == DEPT_HEAD || role == HR_ADMIN || role == TENANT_ADMIN;
  }

  lemma NeededRoleIs(s: State, r: LeaveRequest)
    requires UniqueKeys(s) && r in s.requests
    ensures FindUser(s.users, r.userId).Some?
    ensures r.status == DEPT_APPROVED ==>
              NeededRole(s, r) == ResolveFinalApproverRole(FindUser(s.users, r.userId).value.role)
  {
    var submitter := FindUser(s.users, r.userId).value;
    forall u | u in s.users && u.id == r.userId
      ensures u == submitter
    {
      FindUserIs(s, u);
    }
  }

  /** An action on a request of its tenant succeeds exactly if every check holds, and otherwise answers with the error
      of the first that fails. */
  lemma ActionAnswers(s: State, c: Command, r: LeaveRequest)
    requires UniqueKeys(s) && !c.SubmitCommand? && r in s.requests && r.id == c.id && r.tenantId == c.tenantId
    ensures Answers(Handle(s, c).result, ActionChecks(s, c, r))
  {
    if c.CancelCommand? {
      CancelAnswers(s, c, r);
    } else {
      FindRequestIs(s, r);
      NeededRoleIs(s, r);
      if r.status in Stages(c) {
        AssertCanActAnswers(s, c, r, NeededRole(s, r));
      }
      var k := ActionChecks(s, c, r);
      hide UniqueKeys, FindUser, FindRequest, AssertCanAct, InScope, NeededRole;
      FailureOfFour(k[0], k[1], k[2], k[3]);
      assert k == [k[0], k[1], k[2], k[3]];
      hide FirstFailure;
      match c
      case CommentCommand(_, _, _, _) =>
      case DeptApproveCommand(_, _, _, _) =>
      case HrApproveCommand(_, _, _) =>
      case RejectCommand(_, _, _, _) =>
    }
  }

  lemma CancelAnswers(s: State, c: Command, r: LeaveRequest)
    requires UniqueKeys(s) && c.CancelCommand? && r in s.requests && r.id == c.id && r.tenantId == c.tenantId
    ensures Answers(Handle(s, c).result, ActionChecks(s, c, r))
  {
    FindRequestIs(s, r);
    var k := ActionChecks(s, c, r);
    hide UniqueKeys, FindRequest;
    FailureOfTail(k[1], []);
    FailureOfTail(k[0], [k[1]]);
    assert [k[1]] + [] == [k[1]] && [k[0]] + [k[1]] == k;
    hide FirstFailure;
  }

  // ---- The columns that a success writes ----

  /** The department head's comment is the one given with a department approval; nothing else writes it. */
  lemma DeptCommentIs(s: State, c: Command, i: nat)
    requires !c.SubmitCommand? && Handle(s, c).result.Ok? && RequestIndex(s.requests, c.id) == Some(i)
    ensures Handle(s, c).result.value.deptComment ==
            if c.DeptApproveCommand? && c.deptComment.Some? then c.deptComment else s.requests[i].deptComment
  {
    hide AssertCanAct, ResolveFinalApproverRole, RequiredRoleForStage, SettlePending, DropPending, FindUser;
    match c
    case CommentCommand(_, _, _, _) =>
    case DeptApproveCommand(_, _, _, _) =>
    case HrApproveCommand(_, _, _) =>
    case RejectCommand(_, _, _, _) =>
    case CancelCommand(_, _, _) =>
  }

  /** The status that a request of a submitter of this role starts with. */
  function FirstStatus(role: Role): Status {
    match role
    case TEAM_LEAD => TEAM_LEAD_COMMENTED
    case DEPT_HEAD => DEPT_APPROVED
    case HR_ADMIN => DEPT_APPROVED
    case _ => PENDING
  }

  /** A new request starts where its submitter's role puts it, stamped by the submitter for the stages it skips. */
  lemma NewRequestStartsAt(s: State, c: Command, u: User)
    requires UniqueKeys(s) && c.SubmitCommand? && Handle(s, c).result.Ok? && u in s.users && u.id == c.userId
    ensures var r, own := Handle(s, c).result.value, Some(Stamp(c.userId, s.today));
            && r.status == FirstStatus(u.role)
            && r.teamLead == (if r.status == PENDING then None else own)
            && r.dept == (if r.status == DEPT_APPROVED then own else None)
  {
    FindUserIs(s, u);
    hide UniqueKeys, FindUser, UsableBalance, SubmitError, WeekdaysBetween;
  }

  /** A new request has no comment and no final stamp, and its reservation is one pending deduction of its days at its
      start. */
  lemma NewRequestIs(s: State, c: Command)
    requires c.SubmitCommand? && Handle(s, c).result.Ok?
    ensures var r := Handle(s, c).result.value;
            && r.deptComment.None? && r.hr.None? && r.tenantAdmin.None? && r.totalDays == DaysAsked(c.dto)
            && Handle(s, c).state.ledger ==
               s.ledger + [LedgerRow(c.tenantId, c.userId, c.dto.policyId, DEDUCTION, -DaysAsked(c.dto), true,
                                     c.dto.startDate, Some(c.newId))]
  {
    hide UsableBalance, SubmitError, WeekdaysBetween;
  }

  /** An update of a user of the tenant, to a department the tenant has or to none, writes exactly what it carries; any
      other changes nobody. */
  lemma UpdateTakesEffect(s: State, id: Id, tenantId: Id, role: Option<Role>, departmentId: Option<Option<Id>>)
    requires UniqueKeys(s)
    ensures var users := UpdatedUsers(s, id, tenantId, role, departmentId);
            var allowed := departmentId.Some? && departmentId.value.Some? ==>
                             exists d <- s.departments :: d.id == departmentId.value.value && d.tenantId == tenantId;
            && |users| == |s.users|
            && forall i :: 0 <= i < |users| ==>
                 users[i] ==
                 if s.users[i].id == id && s.users[i].tenantId == tenantId && allowed then
                   User(id, tenantId, if role.Some? then role.value else s.users[i].role,
                        if departmentId.Some? then departmentId.value else s.users[i].departmentId)
                 else s.users[i]
  {
    if departmentId.Some? && departmentId.value.Some? {
      FindDepartmentOnlyIf(s.departments, departmentId.value.value, tenantId);
    }
    hide DistinctDepartments, UniqueRequests, FindDepartment;
    var found := UserIndex(s.users, id);
    forall i | 0 <= i < |s.users| && s.users[i].id == id
      ensures found == Some(i)
    {
    }
  }
}
