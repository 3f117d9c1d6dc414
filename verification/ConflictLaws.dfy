/** What the counts behind the conflict warning mean: one row more, at any place of a table, and what it adds. */
module ConflictLaws {
  import opened EcmaDate
  import opened LeaveTypes
  import opened ConflictDetection

  // ---- Requests ----

  lemma {:induction false} OffCountConcat(a: seq<LeaveRequest>, b: seq<LeaveRequest>, scope: Scope, day: int)
    ensures OffCount(a + b, scope, day) == OffCount(a, scope, day) + OffCount(b, scope, day)
  {
    hide InScope, Covers;
    if b == [] {
      assert a + b == a;
    } else {
      OffCountConcat(a, b[..|b| - 1], scope, day);
      assert (a + b)[..|a + b| - 1] == a + b[..|b| - 1];
    }
  }

  lemma OffCountInsert(a: seq<LeaveRequest>, r: LeaveRequest, b: seq<LeaveRequest>, scope: Scope, day: int)
    ensures OffCount([], scope, day) == 0
    ensures OffCount(a + [r] + b, scope, day) ==
            OffCount(a + b, scope, day) + if InScope(scope, r) && Covers(r, day) then 1 else 0
  {
    OffCountConcat(a, b, scope, day);
    OffCountConcat(a, [r], scope, day);
    OffCountConcat(a + [r], b, scope, day);
    assert [r][..0] == [];
  }

  /** For the warning, a request counts on a day exactly if it is another request of the tenant and the department, in
      flight or approved, and covers the day. */
  lemma DetectionCounts(a: seq<LeaveRequest>, r: LeaveRequest, b: seq<LeaveRequest>, departmentId: Id, tenantId: Id,
                        excludedId: Id, day: int)
    ensures var scope := DetectionScope(departmentId, tenantId, excludedId);
            && OffCount([], scope, day) == 0
            && OffCount(a + [r] + b, scope, day) ==
               OffCount(a + b, scope, day) +
               if r.tenantId == tenantId && r.departmentId == departmentId && r.id != excludedId &&
                  r.status != REJECTED && r.status != CANCELLED && r.startDate <= day <= r.endDate
               then 1 else 0
  {
    OffCountInsert(a, r, b, DetectionScope(departmentId, tenantId, excludedId), day);
  }

  /** For the tenant scan, it counts exactly if it is approved. */
  lemma ScanCounts(a: seq<LeaveRequest>, r: LeaveRequest, b: seq<LeaveRequest>, departmentId: Id, tenantId: Id,
                   day: int)
    ensures var scope := ScanScope(departmentId, tenantId);
            && OffCount([], scope, day) == 0
            && OffCount(a + [r] + b, scope, day) ==
               OffCount(a + b, scope, day) +
               if r.tenantId == tenantId && r.departmentId == departmentId && r.status == APPROVED &&
                  r.startDate <= day <= r.endDate
               then 1 else 0
  {
    OffCountInsert(a, r, b, ScanScope(departmentId, tenantId), day);
  }

  // ---- Members ----

  lemma {:induction false} SizeConcat(a: seq<User>, b: seq<User>, departmentId: Id, tenantId: Id)
    ensures DepartmentSize(a + b, departmentId, tenantId) ==
            DepartmentSize(a, departmentId, tenantId) + DepartmentSize(b, departmentId, tenantId)
  {
    if b == [] {
      assert a + b == a;
    } else {
      SizeConcat(a, b[..|b| - 1], departmentId, tenantId);
      assert (a + b)[..|a + b| - 1] == a + b[..|b| - 1];
    }
  }

  /** A user adds one to a department's size exactly if they are of the tenant and in the department. */
  lemma SizeCounts(a: seq<User>, u: User, b: seq<User>, departmentId: Id, tenantId: Id)
    ensures DepartmentSize([], departmentId, tenantId) == 0
    ensures DepartmentSize(a + [u] + b, departmentId, tenantId) ==
            DepartmentSize(a + b, departmentId, tenantId) +
            if u.tenantId == tenantId && u.departmentId == Some(departmentId) then 1 else 0
  {
    SizeConcat(a, b, departmentId, tenantId);
    SizeConcat(a, [u], departmentId, tenantId);
    SizeConcat(a + [u], b, departmentId, tenantId);
    assert [u][..0] == [];
  }

  // ---- Departments ----

  lemma {:induction false} ConflictingConcat(
    a: seq<Department>, b: seq<Department>, users: seq<User>, requests: seq<LeaveRequest>, tenantId: Id, from: int,
    to: int)
    ensures CountConflicting(a + b, users, requests, tenantId, from, to) ==
            CountConflicting(a, users, requests, tenantId, from, to) +
            CountConflicting(b, users, requests, tenantId, from, to)
  {
    hide Conflicting;
    if b == [] {
      assert a + b == a;
    } else {
      ConflictingConcat(a, b[..|b| - 1], users, requests, tenantId, from, to);
      assert (a + b)[..|a + b| - 1] == a + b[..|b| - 1];
    }
  }

  /** A department adds one to the scan exactly if it is an active one of the tenant and, on some working day of the
      window, more than 0.2 of its members are off. */
  lemma ConflictingCounts(
    a: seq<Department>, d: Department, b: seq<Department>, users: seq<User>, requests: seq<LeaveRequest>, tenantId: Id,
    from: int, to: int)
    ensures CountConflicting([], users, requests, tenantId, from, to) == 0
    ensures var size := DepartmentSize(users, d.id, tenantId);
            CountConflicting(a + [d] + b, users, requests, tenantId, from, to) ==
            CountConflicting(a + b, users, requests, tenantId, from, to) +
            if d.tenantId == tenantId && d.isActive && size > 0 &&
               exists day :: from <= day <= to && 1 <= WeekDay(day) <= 5 &&
                 OffCount(requests, ScanScope(d.id, tenantId), day) as real / size as real > 0.2
            then 1 else 0
  {
    ConflictingConcat(a, b, users, requests, tenantId, from, to);
    ConflictingConcat(a, [d], users, requests, tenantId, from, to);
    ConflictingConcat(a + [d], b, users, requests, tenantId, from, to);
    assert [d][..0] == [];
    var size := DepartmentSize(users, d.id, tenantId);
    if size > 0 {
      forall day ensures Breach(requests, ScanScope(d.id, tenantId), size, day) <==>
          1 <= WeekDay(day) <= 5 && OffCount(requests, ScanScope(d.id, tenantId), day) as real / size as real > 0.2
      {
        BreachIsOverAFifth(requests, ScanScope(d.id, tenantId), size, day);
      }
    }
    hide Breach, OffCount, DepartmentSize, WeekDay;
  }

  /** A department in breach: a day from Monday to Friday with more than 0.2 of the members off. */
  lemma BreachIsOverAFifth(requests: seq<LeaveRequest>, scope: Scope, size: nat, day: int)
    requires size > 0
    ensures Breach(requests, scope, size, day) <==>
            1 <= WeekDay(day) <= 5 && OffCount(requests, scope, day) as real / size as real > 0.2
  {
    hide OffCount;
    ShareOverAFifth(OffCount(requests, scope, day), size);
  }

  lemma ShareOverAFifth(off: nat, size: nat)
    requires size > 0
    ensures off as real / size as real > 0.2 <==> 5 * off > size
  {
    var o, n := off as real, size as real;
    QuotientOrder(o, n, 0.2);
    assert 5.0 * o > n <==> 5 * off > size;
  }

  lemma QuotientOrder(a: real, b: real, x: real)
    requires b > 0.0
    ensures a / b > x <==> a > x * b
    ensures a / b < x <==> a < x * b
  {
    var q := a / b;
    assert q * b == a;
    assert (q - x) * b == a - x * b;
    SignOfProduct(q - x, b);
  }

  lemma SignOfProduct(x: real, b: real)
    requires b > 0.0
    ensures x > 0.0 <==> x * b > 0.0
    ensures x < 0.0 <==> x * b < 0.0
  {
  }

  /** The percentage is the whole number nearest to the share, and the greater one at a half. */
  lemma PercentageIsNearest(part: nat, whole: nat)
    requires whole > 0
    ensures var exact := 100.0 * part as real / whole as real;
            exact - 0.5 < Percentage(part, whole) as real <= exact + 0.5
  {
    var p := Percentage(part, whole);
    assert 200 * part + whole == 2 * whole * p + (200 * part + whole) % (2 * whole);
    assert 2 * (whole * p) <= 200 * part + whole < 2 * (whole * p) + 2 * whole;
    var a, w, q := 100.0 * part as real, whole as real, p as real;
    assert (whole * p) as real == w * q;
    assert w * q <= a + 0.5 * w < w * q + w;
    QuotientOrder(a, w, q - 0.5);
    QuotientOrder(a, w, q + 0.5);
    assert (q - 0.5) * w == w * q - 0.5 * w && (q + 0.5) * w == w * q + 0.5 * w;
  }
}
