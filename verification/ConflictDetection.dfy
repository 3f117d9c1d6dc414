/** Departments short of staff: the conflict warning of one request, and the scan over a tenant. */
module ConflictDetection {
  import opened EcmaDate
  import opened LeaveDays
  import opened LeaveTypes
  import opened LeaveDatabase

  datatype ConflictWarning = ConflictWarning(
    affectedDates: seq<int>, departmentOffCount: nat, departmentSize: nat, percentageOff: int)

  const ACTIVE: set<Status> := {PENDING, TEAM_LEAD_COMMENTED, DEPT_APPROVED, APPROVED}

  // ---- The queries ----

  function DepartmentSize(users: seq<User>, departmentId: Id, tenantId: Id): nat {
    if users == [] then 0
    else
      var u := users[|users| - 1];
      DepartmentSize(users[..|users| - 1], departmentId, tenantId) +
      if u.departmentId == Some(departmentId) && u.tenantId == tenantId then 1 else 0
  }

  /** What a request must meet to count for a department, whatever its dates. */
  datatype Scope = Scope(tenantId: Id, departmentId: Id, excludedId: Option<Id>, statuses: set<Status>)

  predicate InScope(scope: Scope, r: LeaveRequest) {
    r.tenantId == scope.tenantId && r.departmentId == scope.departmentId &&
    scope.excludedId != Some(r.id) && r.status in scope.statuses
  }

  predicate Covers(r: LeaveRequest, day: int) {
    r.startDate <= day <= r.endDate
  }

  /** The `findMany`: requests in scope whose dates overlap the window. */
  function Overlapping(requests: seq<LeaveRequest>, scope: Scope, from: int, to: int): seq<LeaveRequest> {
    if requests == [] then []
    else
      var r := requests[|requests| - 1];
      Overlapping(requests[..|requests| - 1], scope, from, to) +
      if InScope(scope, r) && r.startDate <= to && r.endDate >= from then [r] else []
  }

  function CountCovering(requests: seq<LeaveRequest>, day: int): nat {
    if requests == [] then 0
    else CountCovering(requests[..|requests| - 1], day) + if Covers(requests[|requests| - 1], day) then 1 else 0
  }

  // ---- What it is for: the whole table, with no prefilter ----

  /** How many requests of the whole table are in scope and cover the day. */
  function OffCount(requests: seq<LeaveRequest>, scope: Scope, day: int): nat {
    if requests == [] then 0
    else
      var r := requests[|requests| - 1];
      OffCount(requests[..|requests| - 1], scope, day) + if InScope(scope, r) && Covers(r, day) then 1 else 0
  }

  /** More than a fifth of the department is off on a working day. */
  predicate Breach(requests: seq<LeaveRequest>, scope: Scope, size: nat, day: int) {
    IsWeekday(day) && 5 * OffCount(requests, scope, day) > size
  }

  lemma CountAppend(requests: seq<LeaveRequest>, r: LeaveRequest, day: int)
    ensures CountCovering(requests + [r], day) == CountCovering(requests, day) + if Covers(r, day) then 1 else 0
  {
    assert (requests + [r])[..|requests|] == requests;
  }

  /** On a day of the window the prefiltered rows count as much as the whole table. */
  lemma {:induction false} PrefilterIsExact(requests: seq<LeaveRequest>, scope: Scope, from: int, to: int, day: int)
    requires from <= day <= to
    ensures CountCovering(Overlapping(requests, scope, from, to), day) == OffCount(requests, scope, day)
  {
    if requests != [] {
      hide InScope;
      var init, r := requests[..|requests| - 1], requests[|requests| - 1];
      PrefilterIsExact(init, scope, from, to, day);
      var rows := Overlapping(init, scope, from, to);
      CountAppend(rows, r, day);
      if InScope(scope, r) && r.startDate <= to && r.endDate >= from {
        assert Overlapping(requests, scope, from, to) == rows + [r];
      } else {
        assert Overlapping(requests, scope, from, to) == rows;
      }
    }
  }

  predicate StrictlyIncreasing(days: seq<int>) {
    forall i, j :: 0 <= i < j < |days| ==> days[i] < days[j]
  }

  /** The days of the window on which the department is in breach, all of them and in order. */
  ghost predicate ExactlyTheBreaches(days: seq<int>, requests: seq<LeaveRequest>, scope: Scope, size: nat, from: int,
      to: int)
  {
    && StrictlyIncreasing(days)
    && forall day :: day in days <==> from <= day <= to && Breach(requests, scope, size, day)
  }

  predicate OverThreshold(requests: seq<LeaveRequest>, size: nat, day: int) {
    IsWeekday(day) && 5 * CountCovering(requests, day) > size
  }

  /** What the walk of `detect` collects from the given rows: the weekdays of the window over the threshold. */
  function AffectedDays(requests: seq<LeaveRequest>, size: nat, from: int, to: int): seq<int>
    decreases 1 + to - from
  {
    if to < from then []
    else AffectedDays(requests, size, from, to - 1) + if OverThreshold(requests, size, to) then [to] else []
  }

  lemma {:induction false} AffectedDaysAre(requests: seq<LeaveRequest>, size: nat, from: int, to: int)
    ensures StrictlyIncreasing(AffectedDays(requests, size, from, to))
    ensures forall day :: day in AffectedDays(requests, size, from, to) <==>
              from <= day <= to && OverThreshold(requests, size, day)
    ensures |AffectedDays(requests, size, from, to)| <= WeekdaysBetween(from, to)
    decreases 1 + to - from
  {
    hide IsWeekday;
    if from <= to {
      AffectedDaysAre(requests, size, from, to - 1);
      var init := AffectedDays(requests, size, from, to - 1);
      assert forall i :: 0 <= i < |init| ==> init[i] in init;
    }
  }

  lemma SomeDayAffected(requests: seq<LeaveRequest>, size: nat, from: int, to: int)
    ensures AffectedDays(requests, size, from, to) != [] <==>
            exists day :: from <= day <= to && OverThreshold(requests, size, day)
  {
    hide OverThreshold;
    AffectedDaysAre(requests, size, from, to);
    var days := AffectedDays(requests, size, from, to);
    if days != [] {
      assert days[0] in days;
    }
  }

  /** The highest count over the given days, at least 0. */
  function Peak(requests: seq<LeaveRequest>, days: seq<int>): (peak: nat)
    ensures forall day <- days :: CountCovering(requests, day) <= peak
    ensures days != [] ==> exists day <- days :: CountCovering(requests, day) == peak
  {
    if days == [] then 0
    else
      assert days == days[..|days| - 1] + [days[|days| - 1]];
      var rest := Peak(requests, days[..|days| - 1]);
      var last := CountCovering(requests, days[|days| - 1]);
      if last < rest then rest else last
  }

  /** `Math.round(part / whole * 100)`, halves up. */
  function Percentage(part: nat, whole: nat): int
    requires whole > 0
  {
    (200 * part + whole) / (2 * whole)
  }

  function DetectionScope(departmentId: Id, tenantId: Id, excludedId: Id): Scope {
    Scope(tenantId, departmentId, Some(excludedId), ACTIVE)
  }

  /** There is a warning exactly when the department has members and some working day of the window has
      more than a fifth of them off, counting the whole request table. The warning lists exactly those
      days, and its count is the highest of the window, on any weekday and not only on those listed. */
  method Detect(db: Database, departmentId: Id, tenantId: Id, startDate: int, endDate: int, excludedId: Id)
    returns (warning: Option<ConflictWarning>)
    ensures var scope := DetectionScope(departmentId, tenantId, excludedId);
            var size := DepartmentSize(db.users, departmentId, tenantId);
            && (warning.None? <==>
                  size == 0 || forall day :: startDate <= day <= endDate ==> !Breach(db.requests, scope, size, day))
            && (warning.Some? ==>
                  && ExactlyTheBreaches(warning.value.affectedDates, db.requests, scope, size, startDate, endDate)
                  && warning.value.departmentSize == size > 0
                  && warning.value.percentageOff == Percentage(warning.value.departmentOffCount, size)
                  && (exists day <- warning.value.affectedDates ::
                        OffCount(db.requests, scope, day) == warning.value.departmentOffCount)
                  && forall day :: startDate <= day <= endDate && IsWeekday(day) ==>
                       OffCount(db.requests, scope, day) <= warning.value.departmentOffCount)
    ensures warning.Some? ==> |warning.value.affectedDates| <= WeekdaysBetween(startDate, endDate)
    ensures var scope := DetectionScope(departmentId, tenantId, excludedId);
            var rows := Overlapping(db.requests, scope, startDate, endDate);
            var size := DepartmentSize(db.users, departmentId, tenantId);
            && (warning.None? <==> size == 0 || AffectedDays(rows, size, startDate, endDate) == [])
            && (warning.Some? ==> warning.value.affectedDates == AffectedDays(rows, size, startDate, endDate))
  {
    hide IsWeekday, Overlapping, DayFromYear, IsLeapYear, SetDate, DepartmentSize, InScope, WeekdaysBetween, Percentage;
    hide YearOf, MonthOf, DateOf;
    var departmentSize := DepartmentSize(db.users, departmentId, tenantId);
    if departmentSize == 0 {
      return None;
    }
    var scope := DetectionScope(departmentId, tenantId, excludedId);
    var overlapping := Overlapping(db.requests, scope, startDate, endDate);
    forall day | startDate <= day <= endDate
      ensures OverThreshold(overlapping, departmentSize, day) == Breach(db.requests, scope, departmentSize, day)
    {
      PrefilterIsExact(db.requests, scope, startDate, endDate, day);
    }
    AffectedDaysAre(overlapping, departmentSize, startDate, endDate);
    if overlapping == [] {
      NoRowsNoDays(departmentSize, startDate, endDate);
      return None;
    }
    var affectedDates := [];
    var current := startDate;
    while current <= endDate
      invariant startDate <= current && (startDate <= endDate ==> current <= endDate + 1)
      invariant endDate < startDate ==> current == startDate
      invariant affectedDates == AffectedDays(overlapping, departmentSize, startDate, current - 1)
      decreases endDate - current
    {
      if IsWeekday(current) {
        var offOnThisDay := CountCovering(overlapping, current);
        if 5 * offOnThisDay > departmentSize {
          affectedDates := affectedDates + [current];
        }
      }
      SetDateMovesByDays(current, 1);
      current := SetDate(current, DateOf(current) + 1);
    }
    assert affectedDates == AffectedDays(overlapping, departmentSize, startDate, endDate);
    if affectedDates == [] {
      return None;
    }
    var peakOffCount := Peak(overlapping, affectedDates);
    PeakCoversWeekdays(db.requests, scope, departmentSize, startDate, endDate, affectedDates, overlapping);
    assert startDate <= affectedDates[0] <= endDate by { assert affectedDates[0] in affectedDates; }
    assert Breach(db.requests, scope, departmentSize, affectedDates[0]) by { assert affectedDates[0] in affectedDates; }
    var percentageOff := Percentage(peakOffCount, departmentSize);
    warning := Some(ConflictWarning(affectedDates, peakOffCount, departmentSize, percentageOff));
  }

  lemma {:induction false} NoRowsNoDays(size: nat, from: int, to: int)
    ensures AffectedDays([], size, from, to) == []
    decreases 1 + to - from
  {
    if from <= to {
      NoRowsNoDays(size, from, to - 1);
    }
  }

  /** A weekday that is not listed has fewer off than any that is. */
  lemma PeakCoversWeekdays(requests: seq<LeaveRequest>, scope: Scope, size: nat, from: int, to: int,
                           days: seq<int>, overlapping: seq<LeaveRequest>)
    requires days != [] && overlapping == Overlapping(requests, scope, from, to)
    requires forall day :: day in days <==> from <= day <= to && Breach(requests, scope, size, day)
    ensures forall day :: from <= day <= to && IsWeekday(day) ==>
            OffCount(requests, scope, day) <= Peak(overlapping, days)
    ensures exists day <- days :: OffCount(requests, scope, day) == Peak(overlapping, days)
  {
    hide Overlapping, IsWeekday;
    forall day | from <= day <= to
      ensures CountCovering(overlapping, day) == OffCount(requests, scope, day)
    {
      PrefilterIsExact(requests, scope, from, to, day);
    }
    forall day | from <= day <= to && IsWeekday(day)
      ensures OffCount(requests, scope, day) <= Peak(overlapping, days)
    {
      if day !in days {
        assert days[0] in days;
        assert Breach(requests, scope, size, days[0]) && !Breach(requests, scope, size, day);
      }
    }
    var peak := Peak(overlapping, days);
    assert exists day <- days :: CountCovering(overlapping, day) == peak;
    var day :| day in days && CountCovering(overlapping, day) == peak;
    assert OffCount(requests, scope, day) == Peak(overlapping, days);
  }

  // ---- The tenant scan ----

  function ScanScope(departmentId: Id, tenantId: Id): Scope {
    Scope(tenantId, departmentId, None, {APPROVED})
  }

  /** The walk stops at the first breach, and reports one exactly when there is one: exactly when the walk of
      `detect` over the same rows and window would list a day. */
  method BreachesThreshold(requests: seq<LeaveRequest>, departmentSize: nat, fromDate: int, toDate: int)
    returns (breach: bool)
    ensures breach <==>
            exists day :: fromDate <= day <= toDate && IsWeekday(day) &&
              5 * CountCovering(requests, day) > departmentSize
    ensures breach <==> AffectedDays(requests, departmentSize, fromDate, toDate) != []
  {
    SomeDayAffected(requests, departmentSize, fromDate, toDate);
    hide IsWeekday, DayFromYear, IsLeapYear, SetDate;
    var current := fromDate;
    while current <= toDate
      invariant fromDate <= current
      invariant forall day :: fromDate <= day < current && day <= toDate ==>
                  !(IsWeekday(day) && 5 * CountCovering(requests, day) > departmentSize)
      decreases toDate - current
    {
      if IsWeekday(current) {
        var offCount := CountCovering(requests, current);
        if 5 * offCount > departmentSize {
          assert OverThreshold(requests, departmentSize, current);
          return true;
        }
      }
      SetDateMovesByDays(current, 1);
      current := SetDate(current, DateOf(current) + 1);
    }
    return false;
  }

  function ActiveDepartments(departments: seq<Department>, tenantId: Id): seq<Department> {
    if departments == [] then []
    else
      var d := departments[|departments| - 1];
      ActiveDepartments(departments[..|departments| - 1], tenantId) +
      if d.tenantId == tenantId && d.isActive then [d] else []
  }

  /** An active department of the tenant that has members and a day of breach by approved leave. */
  ghost predicate Conflicting(d: Department, users: seq<User>, requests: seq<LeaveRequest>, tenantId: Id, from: int,
      to: int)
  {
    var size := DepartmentSize(users, d.id, tenantId);
    d.tenantId == tenantId && d.isActive && size > 0 &&
    exists day :: from <= day <= to && Breach(requests, ScanScope(d.id, tenantId), size, day)
  }

  /** How many departments of the whole table are in conflict. */
  ghost function CountConflicting(departments: seq<Department>, users: seq<User>, requests: seq<LeaveRequest>,
                                  tenantId: Id, from: int, to: int): nat {
    if departments == [] then 0
    else
      CountConflicting(departments[..|departments| - 1], users, requests, tenantId, from, to) +
      if Conflicting(departments[|departments| - 1], users, requests, tenantId, from, to) then 1 else 0
  }

  lemma CountConflictingAppend(departments: seq<Department>, d: Department, users: seq<User>,
      requests: seq<LeaveRequest>,
                               tenantId: Id, from: int, to: int)
    ensures CountConflicting(departments + [d], users, requests, tenantId, from, to) ==
            CountConflicting(departments, users, requests, tenantId, from, to) +
            if Conflicting(d, users, requests, tenantId, from, to) then 1 else 0
  {
    hide Conflicting;
    assert (departments + [d])[..|departments|] == departments;
  }

  lemma {:induction false} CountActive(departments: seq<Department>, users: seq<User>, requests: seq<LeaveRequest>,
                                       tenantId: Id, from: int, to: int)
    ensures CountConflicting(ActiveDepartments(departments, tenantId), users, requests, tenantId, from, to) ==
            CountConflicting(departments, users, requests, tenantId, from, to)
  {
    if departments != [] {
      var init, d := departments[..|departments| - 1], departments[|departments| - 1];
      var active := ActiveDepartments(init, tenantId);
      CountActive(init, users, requests, tenantId, from, to);
      ConflictingIsActive(d, users, requests, tenantId, from, to);
      CountConflictingAppend(init, d, users, requests, tenantId, from, to);
      CountConflictingAppend(active, d, users, requests, tenantId, from, to);
      assert departments == init + [d];
      assert ActiveDepartments(departments, tenantId) ==
             if d.tenantId == tenantId && d.isActive then active + [d] else active;
      hide Conflicting, CountConflicting, ActiveDepartments;
    }
  }

  lemma ConflictingIsActive(d: Department, users: seq<User>, requests: seq<LeaveRequest>, tenantId: Id, from: int,
      to: int)
    ensures Conflicting(d, users, requests, tenantId, from, to) ==> d.tenantId == tenantId && d.isActive
  {
  }

  /** The count is the number of departments in conflict. */
  method CountConflictingDepartments(db: Database, tenantId: Id, fromDate: int, toDate: int) returns (count: nat)
    ensures count == CountConflicting(db.departments, db.users, db.requests, tenantId, fromDate, toDate)
  {
    hide Conflicting, DepartmentSize, Overlapping;
    var departments := ActiveDepartments(db.departments, tenantId);
    CountActive(db.departments, db.users, db.requests, tenantId, fromDate, toDate);
    ActiveMembers(db.departments, tenantId);
    count := 0;
    assert departments[..0] == [];
    for i := 0 to |departments|
      invariant count == CountConflicting(departments[..i], db.users, db.requests, tenantId, fromDate, toDate)
    {
      var d := departments[i];
      assert departments[..i + 1] == departments[..i] + [d] && d in departments;
      CountConflictingAppend(departments[..i], d, db.users, db.requests, tenantId, fromDate, toDate);
      var departmentSize := DepartmentSize(db.users, d.id, tenantId);
      var overlapping := Overlapping(db.requests, ScanScope(d.id, tenantId), fromDate, toDate);
      ScanOfDepartment(d, db.users, db.requests, tenantId, fromDate, toDate);
      if departmentSize == 0 {
        continue;
      }
      if overlapping == [] {
        continue;
      }
      var breach := BreachesThreshold(overlapping, departmentSize, fromDate, toDate);
      if breach {
        count := count + 1;
      }
    }
    assert departments[..|departments|] == departments;
  }

  lemma {:induction false} ActiveMembers(departments: seq<Department>, tenantId: Id)
    ensures forall d <- ActiveDepartments(departments, tenantId) :: d.tenantId == tenantId && d.isActive
  {
    if departments != [] {
      ActiveMembers(departments[..|departments| - 1], tenantId);
    }
  }

  lemma ScanOfDepartment(d: Department, users: seq<User>, requests: seq<LeaveRequest>, tenantId: Id, from: int, to: int)
    requires d.tenantId == tenantId && d.isActive
    ensures var size := DepartmentSize(users, d.id, tenantId);
            var overlapping := Overlapping(requests, ScanScope(d.id, tenantId), from, to);
            Conflicting(d, users, requests, tenantId, from, to) <==>
            size > 0 && overlapping != [] &&
            exists day :: from <= day <= to && IsWeekday(day) && 5 * CountCovering(overlapping, day) > size
  {
    var scope := ScanScope(d.id, tenantId);
    var size := DepartmentSize(users, d.id, tenantId);
    hide IsWeekday, Overlapping, DepartmentSize;
    forall day | from <= day <= to
      ensures CountCovering(Overlapping(requests, scope, from, to), day) == OffCount(requests, scope, day)
    {
      PrefilterIsExact(requests, scope, from, to, day);
    }
    if day :| from <= day <= to && Breach(requests, scope, size, day) {
      assert IsWeekday(day) && 5 * CountCovering(Overlapping(requests, scope, from, to), day) > size;
    }
    var rows := Overlapping(requests, scope, from, to);
    if day :| from <= day <= to && IsWeekday(day) && 5 * CountCovering(rows, day) > size {
      assert Breach(requests, scope, size, day);
    }
  }
}
