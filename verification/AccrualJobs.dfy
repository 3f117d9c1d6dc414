/** The scheduled jobs on the leave ledger: what each appends, per policy and employee and as a whole. */
module AccrualJobs {
  import opened LeaveTypes
  import opened Ledger
  import opened Numbers

  datatype Job = Accrual(frequency: AccrualFrequency) | DevSeed | CarryOver

  datatype Entry = Entry(entryType: EntryType, amount: int)

  /** The `where` clause of the job's policy query. */
  predicate Selects(job: Job, p: Policy) {
    p.isActive &&
    match job
    case Accrual(frequency) => p.accrual == frequency
    case DevSeed => p.accrual == Yearly || p.accrual == OneTime
    case CarryOver => true
  }

  function Fetch(job: Job, policies: seq<Policy>): seq<Policy> {
    if policies == [] then []
    else Fetch(job, policies[..|policies| - 1]) +
         if Selects(job, policies[|policies| - 1]) then [policies[|policies| - 1]] else []
  }

  function UsersIn(users: seq<User>, departmentId: Id): seq<User> {
    if users == [] then []
    else UsersIn(users[..|users| - 1], departmentId) +
         if users[|users| - 1].departmentId == Some(departmentId) then [users[|users| - 1]] else []
  }

  function UsersInAny(users: seq<User>, departmentIds: seq<Id>): seq<User> {
    if departmentIds == [] then []
    else UsersInAny(users, departmentIds[..|departmentIds| - 1]) + UsersIn(users, departmentIds[|departmentIds| - 1])
  }

  /** The `flatMap` over a policy's departments; a policy without departments reaches nobody. */
  function Employees(p: Policy, users: seq<User>): seq<User> {
    UsersInAny(users, p.departmentIds)
  }

  /** What a job does for one employee under one policy, from the balance it reads. */
  function Entries(job: Job, p: Policy, balance: int): seq<Entry> {
    match job
    case Accrual(_) =>
      var credit := Min(p.accrualRate, p.maxBalance - balance);
      if balance >= p.maxBalance || credit <= 0 then [] else [Entry(ACCRUAL, credit)]
    case DevSeed =>
      var credit := Min(p.accrualRate, p.maxBalance - balance);
      if balance >= p.accrualRate || credit <= 0 then [] else [Entry(ACCRUAL, credit)]
    case CarryOver =>
      if balance <= 0 then []
      else
        match p.carryOverPolicy
        case NoCarryOver => [Entry(EXPIRY, -balance)]
        case Full => [Entry(CARRY_OVER, balance)]
        case Limited =>
          var limit := if p.carryOverLimit.Some? then p.carryOverLimit.value else 0;
          var carry := Min(balance, limit);
          var expire := balance - carry;
          (if carry > 0 then [Entry(CARRY_OVER, carry)] else []) + (if expire > 0 then [Entry(EXPIRY, -expire)] else [])
        case NotApplicable => []
  }

  function Net(entries: seq<Entry>): int {
    if entries == [] then 0 else Net(entries[..|entries| - 1]) + entries[|entries| - 1].amount
  }

  /** How much one run of the job changes a balance of a covered employee. */
  function Delta(job: Job, p: Policy, balance: int): int {
    Net(Entries(job, p, balance))
  }

  function RowFor(p: Policy, employeeId: Id, entry: Entry, today: int): LedgerRow {
    LedgerRow(p.tenantId, employeeId, p.id, entry.entryType, entry.amount, false, today, None)
  }

  function RowsFor(p: Policy, employeeId: Id, entries: seq<Entry>, today: int): seq<LedgerRow> {
    if entries == [] then []
    else RowsFor(p, employeeId, entries[..|entries| - 1], today) +
         [RowFor(p, employeeId, entries[|entries| - 1], today)]
  }

  /** The inner loop: each employee's entries follow from the ledger as the loop has extended it so far. */
  function EmployeeRows(job: Job, p: Policy, employees: seq<User>, ledger: seq<LedgerRow>, today: int): seq<LedgerRow> {
    if employees == [] then []
    else
      var before := EmployeeRows(job, p, employees[..|employees| - 1], ledger, today);
      var employee := employees[|employees| - 1];
      var balance := UsableBalance(ledger + before, Key(p.tenantId, employee.id, p.id), today);
      before + RowsFor(p, employee.id, Entries(job, p, balance), today)
  }

  /** The outer loop. */
  function PolicyRows(job: Job, policies: seq<Policy>, users: seq<User>, ledger: seq<LedgerRow>, today: int)
    : seq<LedgerRow>
  {
    if policies == [] then []
    else
      var before := PolicyRows(job, policies[..|policies| - 1], users, ledger, today);
      var p := policies[|policies| - 1];
      before + EmployeeRows(job, p, Employees(p, users), ledger + before, today)
  }

  /** All rows that one run of the job appends to the ledger. */
  function JobRows(job: Job, policies: seq<Policy>, users: seq<User>, ledger: seq<LedgerRow>, today: int)
    : seq<LedgerRow>
  {
    PolicyRows(job, Fetch(job, policies), users, ledger, today)
  }

  // ---- The shape of the appended rows ----

  predicate IsJobRow(row: LedgerRow, today: int) {
    !row.isPending && row.effectiveDate == today && row.referenceId == None
  }

  lemma {:induction false} RowsForShape(p: Policy, employeeId: Id, entries: seq<Entry>, today: int)
    ensures forall row <- RowsFor(p, employeeId, entries, today) ::
              IsJobRow(row, today) && KeyOf(row) == Key(p.tenantId, employeeId, p.id)
  {
    if entries != [] {
      RowsForShape(p, employeeId, entries[..|entries| - 1], today);
    }
  }

  lemma {:induction false} EmployeeRowsShape(job: Job, p: Policy, employees: seq<User>, ledger: seq<LedgerRow>,
      today: int)
    ensures forall row <- EmployeeRows(job, p, employees, ledger, today) :: IsJobRow(row, today)
  {
    if employees != [] {
      var init, employee := employees[..|employees| - 1], employees[|employees| - 1];
      EmployeeRowsShape(job, p, init, ledger, today);
      var balance := UsableBalance(ledger + EmployeeRows(job, p, init, ledger, today),
                                   Key(p.tenantId, employee.id, p.id), today);
      RowsForShape(p, employee.id, Entries(job, p, balance), today);
    }
  }

  lemma {:induction false} PolicyRowsShape(
    job: Job, policies: seq<Policy>, users: seq<User>, ledger: seq<LedgerRow>, today: int)
    ensures forall row <- PolicyRows(job, policies, users, ledger, today) :: IsJobRow(row, today)
  {
    if policies != [] {
      var init, p := policies[..|policies| - 1], policies[|policies| - 1];
      PolicyRowsShape(job, init, users, ledger, today);
      EmployeeRowsShape(job, p, Employees(p, users), ledger + PolicyRows(job, init, users, ledger, today), today);
    }
  }

  /** A job only appends settled rows of the current day that refer to no request. */
  lemma JobRowsShape(job: Job, policies: seq<Policy>, users: seq<User>, ledger: seq<LedgerRow>, today: int)
    ensures forall row <- JobRows(job, policies, users, ledger, today) :: IsJobRow(row, today)
  {
    PolicyRowsShape(job, Fetch(job, policies), users, ledger, today);
  }

  // ---- The schema's unique keys: a job meets each policy and employee once ----

  predicate DistinctIds(ids: seq<Id>) {
    forall i, j :: 0 <= i < j < |ids| ==> ids[i] != ids[j]
  }

  predicate DistinctUsers(users: seq<User>) {
    forall i, j :: 0 <= i < j < |users| ==> users[i].id != users[j].id
  }

  predicate DistinctPolicies(policies: seq<Policy>) {
    && (forall i, j :: 0 <= i < j < |policies| ==> policies[i].id != policies[j].id)
    && (forall p <- policies :: DistinctIds(p.departmentIds))
  }

  lemma {:induction false} UsersInMembers(users: seq<User>, departmentId: Id)
    ensures forall u :: u in UsersIn(users, departmentId) <==> u in users && u.departmentId == Some(departmentId)
    ensures DistinctUsers(users) ==> DistinctUsers(UsersIn(users, departmentId))
  {
    if users != [] {
      var init, last := users[..|users| - 1], users[|users| - 1];
      assert users == init + [last];
      UsersInMembers(init, departmentId);
      var ins := UsersIn(init, departmentId);
      if DistinctUsers(users) {
        forall i | 0 <= i < |ins| ensures ins[i].id != last.id {
          assert ins[i] in init;
        }
      }
    }
  }

  lemma {:induction false} UsersInAnyMembers(users: seq<User>, departmentIds: seq<Id>)
    ensures forall u :: u in UsersInAny(users, departmentIds) <==>
              u in users && u.departmentId.Some? && u.departmentId.value in departmentIds
    ensures DistinctUsers(users) && DistinctIds(departmentIds) ==> DistinctUsers(UsersInAny(users, departmentIds))
  {
    if departmentIds != [] {
      var init, last := departmentIds[..|departmentIds| - 1], departmentIds[|departmentIds| - 1];
      assert departmentIds == init + [last];
      UsersInAnyMembers(users, init);
      UsersInMembers(users, last);
      var a, b := UsersInAny(users, init), UsersIn(users, last);
      if DistinctUsers(users) && DistinctIds(departmentIds) {
        forall i, j | 0 <= i < |a| && 0 <= j < |b|
          ensures a[i].id != b[j].id
        {
          assert a[i] in users && b[j] in users;
          assert a[i].departmentId != b[j].departmentId;
          if a[i].id == b[j].id {
            SameUser(users, a[i], b[j]);
          }
        }
      }
    }
  }

  lemma SameUser(users: seq<User>, u: User, v: User)
    requires DistinctUsers(users) && u in users && v in users && u.id == v.id
    ensures u == v
  {
    var i :| 0 <= i < |users| && users[i] == u;
    var j :| 0 <= j < |users| && users[j] == v;
    assert i == j;
  }

  lemma {:induction false} FetchMembers(job: Job, policies: seq<Policy>)
    ensures forall p :: p in Fetch(job, policies) <==> p in policies && Selects(job, p)
    ensures DistinctPolicies(policies) ==> DistinctPolicies(Fetch(job, policies))
  {
    if policies != [] {
      var init, last := policies[..|policies| - 1], policies[|policies| - 1];
      assert policies == init + [last];
      FetchMembers(job, init);
      var fetched := Fetch(job, init);
      if DistinctPolicies(policies) {
        forall i | 0 <= i < |fetched| ensures fetched[i].id != last.id {
          assert fetched[i] in init;
        }
      }
    }
  }

  // ---- What one run does to every balance ----

  /** The clauses a job's own rows cannot tell apart: settled, of any date or up to the day of the run. */
  predicate SettledBy(w: Where, key: Key, today: int) {
    w == Settled(key) || w == Effective(key, today)
  }

  lemma {:induction false} RowsForSum(p: Policy, employeeId: Id, entries: seq<Entry>, today: int, w: Where, key: Key)
    requires SettledBy(w, key, today)
    ensures Sum(RowsFor(p, employeeId, entries, today), w) ==
            if key == Key(p.tenantId, employeeId, p.id) then Net(entries) else 0
  {
    if entries != [] {
      var init, last := entries[..|entries| - 1], entries[|entries| - 1];
      RowsForSum(p, employeeId, init, today, w, key);
      SumAppend(RowsFor(p, employeeId, init, today), RowFor(p, employeeId, last, today), w);
    }
  }

  predicate HasUser(users: seq<User>, id: Id) {
    exists u <- users :: u.id == id
  }

  lemma LastUserIsNew(users: seq<User>, id: Id)
    requires users != [] && DistinctUsers(users)
    ensures var init, last := users[..|users| - 1], users[|users| - 1];
            && DistinctUsers(init) && !HasUser(init, last.id)
            && (HasUser(users, id) <==> HasUser(init, id) || last.id == id)
  {
    var init, last := users[..|users| - 1], users[|users| - 1];
    assert users == init + [last];
  }

  lemma {:induction false} EmployeeRowsSum(job: Job, p: Policy, employees: seq<User>, ledger: seq<LedgerRow>,
                                           today: int, w: Where, key: Key)
    requires SettledBy(w, key, today) && DistinctUsers(employees)
    ensures Sum(EmployeeRows(job, p, employees, ledger, today), w) ==
            if key.tenantId == p.tenantId && key.policyId == p.id && HasUser(employees, key.employeeId)
            then Delta(job, p, UsableBalance(ledger, key, today)) else 0
  {
    hide DistinctUsers, HasUser, Entries, Net, RowsFor, Matches;
    if employees != [] {
      var init, last := employees[..|employees| - 1], employees[|employees| - 1];
      LastUserIsNew(employees, key.employeeId);
      var before := EmployeeRows(job, p, init, ledger, today);
      EmployeeRowsSum(job, p, init, ledger, today, w, key);
      EmployeeRowsSum(job, p, init, ledger, today, Effective(key, today), key);
      SumConcat(ledger, before, Effective(key, today));
      var balance := UsableBalance(ledger + before, Key(p.tenantId, last.id, p.id), today);
      var entries := Entries(job, p, balance);
      RowsForSum(p, last.id, entries, today, w, key);
      SumConcat(before, RowsFor(p, last.id, entries, today), w);
    } else {
      NoUser(key.employeeId);
    }
  }

  lemma NoUser(id: Id)
    ensures !HasUser([], id)
  {
  }

  /** The policy, if any, under which the list of policies covers the key. */
  function CoveringPolicy(policies: seq<Policy>, users: seq<User>, key: Key): Option<Policy> {
    if policies == [] then None
    else
      var p := policies[|policies| - 1];
      if p.id == key.policyId && p.tenantId == key.tenantId && HasUser(Employees(p, users), key.employeeId) then Some(p)
      else CoveringPolicy(policies[..|policies| - 1], users, key)
  }

  lemma {:induction false} CoveringPolicyIs(policies: seq<Policy>, users: seq<User>, key: Key)
    ensures var c := CoveringPolicy(policies, users, key);
            c.Some? ==> c.value in policies && c.value.id == key.policyId && c.value.tenantId == key.tenantId &&
                        HasUser(Employees(c.value, users), key.employeeId)
  {
    if policies != [] {
      CoveringPolicyIs(policies[..|policies| - 1], users, key);
    }
  }

  /** The change that one run makes to the balance of a key. */
  function JobDelta(job: Job, policies: seq<Policy>, users: seq<User>, key: Key, balance: int): int {
    var c := CoveringPolicy(Fetch(job, policies), users, key);
    if c.Some? then Delta(job, c.value, balance) else 0
  }

  lemma LastPolicyIsNew(policies: seq<Policy>)
    requires policies != [] && DistinctPolicies(policies)
    ensures var init, last := policies[..|policies| - 1], policies[|policies| - 1];
            DistinctPolicies(init) && DistinctIds(last.departmentIds) && forall p <- init :: p.id != last.id
  {
    var init, last := policies[..|policies| - 1], policies[|policies| - 1];
    assert last in policies;
    forall p | p in init ensures p in policies && p.id != last.id {
      var i :| 0 <= i < |init| && init[i] == p;
      assert policies[i].id != policies[|policies| - 1].id;
    }
  }

  lemma EmployeesDistinct(p: Policy, users: seq<User>)
    requires DistinctUsers(users) && DistinctIds(p.departmentIds)
    ensures DistinctUsers(Employees(p, users))
  {
    UsersInAnyMembers(users, p.departmentIds);
  }

  lemma {:induction false} PolicyRowsSum(job: Job, policies: seq<Policy>, users: seq<User>, ledger: seq<LedgerRow>,
                                         today: int, w: Where, key: Key)
    requires SettledBy(w, key, today) && DistinctUsers(users) && DistinctPolicies(policies)
    ensures var c := CoveringPolicy(policies, users, key);
            Sum(PolicyRows(job, policies, users, ledger, today), w) ==
            if c.Some? then Delta(job, c.value, UsableBalance(ledger, key, today)) else 0
  {
    hide DistinctUsers, DistinctIds, DistinctPolicies, HasUser, Delta, EmployeeRows, Employees, Matches;
    if policies != [] {
      var init, p := policies[..|policies| - 1], policies[|policies| - 1];
      LastPolicyIsNew(policies);
      EmployeesDistinct(p, users);
      CoveringPolicyIs(init, users, key);
      var before := PolicyRows(job, init, users, ledger, today);
      PolicyRowsSum(job, init, users, ledger, today, w, key);
      PolicyRowsSum(job, init, users, ledger, today, Effective(key, today), key);
      SumConcat(ledger, before, Effective(key, today));
      var employees := Employees(p, users);
      EmployeeRowsSum(job, p, employees, ledger + before, today, w, key);
      SumConcat(before, EmployeeRows(job, p, employees, ledger + before, today), w);
    }
  }

  /** Over the whole nested loop: one run changes the balance of each covered key by the single-employee
      change, computed from the balance before the run, and leaves every other key alone. */
  lemma JobChangesBalance(job: Job, policies: seq<Policy>, users: seq<User>, ledger: seq<LedgerRow>, today: int,
      key: Key)
    requires DistinctUsers(users) && DistinctPolicies(policies)
    ensures var after := ledger + JobRows(job, policies, users, ledger, today);
            var b := UsableBalance(ledger, key, today);
            && UsableBalance(after, key, today) == b + JobDelta(job, policies, users, key, b)
            && Sum(after, Settled(key)) == Sum(ledger, Settled(key)) + JobDelta(job, policies, users, key, b)
  {
    var fetched := Fetch(job, policies);
    FetchMembers(job, policies);
    PolicyRowsSum(job, fetched, users, ledger, today, Settled(key), key);
    PolicyRowsSum(job, fetched, users, ledger, today, Effective(key, today), key);
    SumConcat(ledger, PolicyRows(job, fetched, users, ledger, today), Settled(key));
    SumConcat(ledger, PolicyRows(job, fetched, users, ledger, today), Effective(key, today));
  }
}
