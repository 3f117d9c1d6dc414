/** The handlers themselves, on one database object whose tables they update in place. Each leaves the
    tables exactly as its function in LeaveHandlers says. */
module LeaveDatabase {
  import opened LeaveTypes
  import opened Ledger
  import opened ApprovalRouting
  import opened LeaveDays
  import H = LeaveHandlers

  class Database {
    var users: seq<User>
    var departments: seq<Department>
    var tenants: seq<Tenant>
    var policies: seq<Policy>
    var requests: seq<LeaveRequest>
    var ledger: seq<LedgerRow>
    var comments: seq<Comment>
    var today: int

    function State(): H.State
      reads this
    {
      H.State(users, departments, tenants, policies, requests, ledger, comments, today)
    }

    // ---- LeaveBalanceService ----

    method GetUsableBalance(key: Key) returns (usable: int)
      ensures usable == UsableBalance(ledger, key, today)
    {
      usable := Sum(ledger, Where(key, false, AnySign, Some(today)));
    }

    method Reserve(key: Key, totalDays: int, effectiveDate: int, requestId: Id) returns (ok: bool)
      modifies this`ledger
      ensures ok <==> UsableBalance(old(ledger), key, today) >= totalDays
      ensures ledger == old(ledger) + (
                if ok then [LedgerRow(key.tenantId, key.employeeId, key.policyId, DEDUCTION, -totalDays, true,
                                      effectiveDate, Some(requestId))]
                else [])
    {
      var usable := GetUsableBalance(key);
      if usable < totalDays {
        return false;
      }
      ledger := ledger + [LedgerRow(key.tenantId, key.employeeId, key.policyId, DEDUCTION, -totalDays, true,
                                    effectiveDate, Some(requestId))];
      return true;
    }

    /** Every row keeps its place; those pending for the request become settled, and nothing else changes. */
    method Confirm(requestId: Id)
      modifies this`ledger
      ensures |ledger| == |old(ledger)|
      ensures forall i :: 0 <= i < |ledger| ==>
                var row := old(ledger)[i];
                ledger[i] == if AwaitsRequest(row, requestId) then row.(isPending := false) else row
    {
      SettlePendingRows(ledger, requestId);
      ledger := SettlePending(ledger, requestId);
    }

    method Release(requestId: Id)
      modifies this`ledger
      ensures Released(old(ledger), ledger, requestId)
    {
      DropPendingReleases(ledger, requestId);
      ledger := DropPending(ledger, requestId);
    }

    // ---- The command handlers ----

    method Submit(newId: Id, dto: H.SubmitDto, tenantId: Id, userId: Id) returns (result: Result<LeaveRequest>)
      modifies this`requests, this`ledger
      ensures H.Reply(State(), result) == H.Submit(old(State()), newId, dto, tenantId, userId)
    {
      if !H.HasActivePolicy(policies, dto.policyId, tenantId) {
        return Err(NotFound);
      }
      var department := H.FindDepartment(departments, dto.departmentId, tenantId);
      if department.None? {
        return Err(NotFound);
      }
      if !department.value.isActive {
        return Err(BadRequest);
      }
      var submitter := FindUser(users, userId);
      if submitter.None? {
        return Err(NotFound);
      }
      if submitter.value.departmentId != Some(dto.departmentId) {
        return Err(BadRequest);
      }
      if dto.endDate < dto.startDate {
        return Err(BadRequest);
      }
      var totalDays := 50;
      if !dto.isHalfDay {
        var days := CalculateTotalDays(dto.startDate, dto.endDate);
        totalDays := 100 * days;
      }
      var routing := ResolveInitialRouting(userId, submitter.value.role, today);

      // the transaction: a reservation that fails takes the new request back
      if H.RequestIndex(requests, newId).Some? {
        return Err(UniqueViolation);
      }
      var before := requests;
      var created := LeaveRequest(newId, userId, tenantId, dto.policyId, dto.departmentId, dto.startDate, dto.endDate,
                                  totalDays, dto.reason, routing.status, routing.teamLead, routing.dept,
                                  None, None, None);
      requests := requests + [created];
      var ok := Reserve(Key(tenantId, userId, dto.policyId), totalDays, dto.startDate, created.id);
      if !ok {
        requests := before;
        return Err(BadRequest);
      }
      return Ok(created);
    }

    method TeamLeadComment(id: Id, tenantId: Id, actorId: Id, comment: string) returns (result: Result<LeaveRequest>)
      modifies this`requests, this`comments
      ensures H.Reply(State(), result) == H.TeamLeadComment(old(State()), id, tenantId, actorId, comment)
    {
      var found := H.FindRequest(requests, id, tenantId);
      if found.None? {
        return Err(NotFound);
      }
      var leaveRequest := requests[found.value];
      if leaveRequest.status != PENDING {
        return Err(BadRequest);
      }
      var actor := AssertCanAct(users, tenants, actorId, tenantId, leaveRequest.departmentId, TEAM_LEAD);
      if actor.Err? {
        return Err(actor.error);
      }
      var updated := leaveRequest.(status := TEAM_LEAD_COMMENTED, teamLead := Some(Stamp(actorId, today)));
      requests := requests[found.value := updated];
      comments := comments + [Comment(id, actorId, comment)];
      return Ok(updated);
    }

    method DeptApprove(id: Id, tenantId: Id, actorId: Id, comment: Option<string>)
      returns (result: Result<LeaveRequest>)
      modifies this`requests
      ensures H.Reply(State(), result) == H.DeptApprove(old(State()), id, tenantId, actorId, comment)
    {
      var found := H.FindRequest(requests, id, tenantId);
      if found.None? {
        return Err(NotFound);
      }
      var leaveRequest := requests[found.value];
      if leaveRequest.status != TEAM_LEAD_COMMENTED {
        return Err(BadRequest);
      }
      var actor := AssertCanAct(users, tenants, actorId, tenantId, leaveRequest.departmentId, DEPT_HEAD);
      if actor.Err? {
        return Err(actor.error);
      }
      var updated := leaveRequest.(status := DEPT_APPROVED, dept := Some(Stamp(actorId, today)));
      if comment.Some? {
        updated := updated.(deptComment := comment);
      }
      requests := requests[found.value := updated];
      return Ok(updated);
    }

    method HrApprove(id: Id, tenantId: Id, actorId: Id) returns (result: Result<LeaveRequest>)
      modifies this`requests, this`ledger
      ensures H.Reply(State(), result) == H.HrApprove(old(State()), id, tenantId, actorId)
    {
      var found := H.FindRequest(requests, id, tenantId);
      if found.None? {
        return Err(NotFound);
      }
      var leaveRequest := requests[found.value];
      var submitter := FindUser(users, leaveRequest.userId);
      if submitter.None? {
        return Err(Inconsistent);
      }
      if leaveRequest.status != DEPT_APPROVED {
        return Err(BadRequest);
      }
      var requiredRole := ResolveFinalApproverRole(submitter.value.role);
      var actor := AssertCanAct(users, tenants, actorId, tenantId, leaveRequest.departmentId, requiredRole);
      if actor.Err? {
        return Err(actor.error);
      }
      var updated := H.StampFor(leaveRequest, requiredRole, Stamp(actorId, today)).(status := APPROVED);
      requests := requests[found.value := updated];
      Confirm(id);
      SettlePendingRows(old(ledger), id);
      assert ledger == SettlePending(old(ledger), id);
      return Ok(updated);
    }

    method Reject(id: Id, tenantId: Id, actorId: Id, reason: Option<string>) returns (result: Result<LeaveRequest>)
      modifies this`requests, this`ledger, this`comments
      ensures H.Reply(State(), result) == H.Reject(old(State()), id, tenantId, actorId, reason)
    {
      hide Released, DropPending, FindUser, AssertCanAct, RequiredRoleForStage;
      var found := H.FindRequest(requests, id, tenantId);
      if found.None? {
        return Err(NotFound);
      }
      var leaveRequest := requests[found.value];
      var submitter := FindUser(users, leaveRequest.userId);
      if submitter.None? {
        return Err(Inconsistent);
      }
      if leaveRequest.status !in REJECTABLE_STAGES {
        return Err(BadRequest);
      }
      var requiredRole := RequiredRoleForStage(leaveRequest.status, submitter.value.role);
      var actor := AssertCanAct(users, tenants, actorId, tenantId, leaveRequest.departmentId, requiredRole);
      if actor.Err? {
        return Err(actor.error);
      }
      var updated := H.StampFor(leaveRequest, requiredRole, Stamp(actorId, today)).(status := REJECTED);
      requests := requests[found.value := updated];
      if reason.Some? && reason.value != "" {
        comments := comments + [Comment(id, actorId, reason.value)];
      }
      Release(id);
      ReleasedIsDropped(old(ledger), ledger, id);
      return Ok(updated);
    }

    method Cancel(id: Id, tenantId: Id, requesterId: Id) returns (result: Result<LeaveRequest>)
      modifies this`requests, this`ledger
      ensures H.Reply(State(), result) == H.Cancel(old(State()), id, tenantId, requesterId)
    {
      hide Released, DropPending;
      var found := H.FindRequest(requests, id, tenantId);
      if found.None? {
        return Err(NotFound);
      }
      var leaveRequest := requests[found.value];
      if leaveRequest.userId != requesterId {
        return Err(Forbidden);
      }
      if !IsCancellable(leaveRequest.status) {
        return Err(BadRequest);
      }
      var updated := leaveRequest.(status := CANCELLED);
      requests := requests[found.value := updated];
      Release(id);
      ReleasedIsDropped(old(ledger), ledger, id);
      return Ok(updated);
    }
  }
}
