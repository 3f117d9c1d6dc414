/** The scheduler's jobs as nested loops over policies and employees, appending to the ledger in place. */
module LeaveAccrualScheduler {
  import opened LeaveTypes
  import opened Ledger
  import opened AccrualJobs
  import opened LeaveDatabase
  import opened Numbers

  class Scheduler {
    const db: Database

    constructor (db: Database)
      ensures this.db == db
    {
      this.db := db;
    }

    /** The rows the job is due to append to the tables as they stand. */
    function Due(job: Job): seq<LedgerRow>
      reads db
    {
      JobRows(job, db.policies, db.users, db.ledger, db.today)
    }

    /** The balance query of the jobs. */
    method Available(p: Policy, employee: User) returns (available: int)
      ensures available == UsableBalance(db.ledger, Key(p.tenantId, employee.id, p.id), db.today)
    {
      available := Sum(db.ledger, Where(Key(p.tenantId, employee.id, p.id), false, AnySign, Some(db.today)));
    }

    method Insert(p: Policy, employee: User, entryType: EntryType, amount: int)
      modifies db`ledger
      ensures db.ledger == old(db.ledger) + [RowFor(p, employee.id, Entry(entryType, amount), db.today)]
    {
      db.ledger := db.ledger +
        [LedgerRow(p.tenantId, employee.id, p.id, entryType, amount, false, db.today, None)];
    }

    method RunMonthlyAccruals() returns (totalCredits: nat)
      modifies db`ledger
      ensures db.ledger == old(db.ledger) + old(Due(Accrual(Monthly)))
      ensures totalCredits == |db.ledger| - |old(db.ledger)|
    {
      totalCredits := RunAccruals(Monthly);
    }

    method RunYearlyAccruals() returns (totalCredits: nat)
      modifies db`ledger
      ensures db.ledger == old(db.ledger) + old(Due(Accrual(Yearly)))
      ensures totalCredits == |db.ledger| - |old(db.ledger)|
    {
      totalCredits := RunAccruals(Yearly);
    }

    /** The body that the monthly and the yearly job share. */
    method RunAccruals(frequency: AccrualFrequency) returns (totalCredits: nat)
      modifies db`ledger
      ensures db.ledger == old(db.ledger) + old(Due(Accrual(frequency)))
      ensures totalCredits == |db.ledger| - |old(db.ledger)|
    {
      hide Fetch, Employees, EmployeeRows, PolicyRows, RowsFor, Entries;
      ghost var job := Accrual(frequency);
      var policies := Fetch(Accrual(frequency), db.policies);
      totalCredits := 0;
      NoRowsYet(job, db.users, db.ledger, db.today);
      for i := 0 to |policies|
        invariant db.ledger == old(db.ledger) + PolicyRows(job, policies[..i], db.users, old(db.ledger), db.today)
        invariant totalCredits == |db.ledger| - |old(db.ledger)|
      {
        var policy := policies[i];
        var employees := Employees(policy, db.users);
        ghost var start := db.ledger;
        NoEmployeeRowsYet(job, policy, start, db.today);
        for j := 0 to |employees|
          invariant db.ledger == start + EmployeeRows(job, policy, employees[..j], start, db.today)
          invariant totalCredits == |db.ledger| - |old(db.ledger)|
        {
          var credited := AccrueFor(frequency, policy, employees[j]);
          if credited {
            totalCredits := totalCredits + 1;
          }
          NextEmployeeRows(job, policy, employees, j, start, db.today);
        }
        NextPolicyRows(job, policies, i, db.users, old(db.ledger), db.today);
      }
      assert policies[..|policies|] == policies;
    }

    /** The body of the accrual loop; it reports whether a credit was inserted. */
    method AccrueFor(frequency: AccrualFrequency, policy: Policy, employee: User) returns (credited: bool)
      modifies db`ledger
      ensures var balance := UsableBalance(old(db.ledger), Key(policy.tenantId, employee.id, policy.id), db.today);
              db.ledger == old(db.ledger) +
                RowsFor(policy, employee.id, Entries(Accrual(frequency), policy, balance), db.today)
      ensures |db.ledger| == |old(db.ledger)| + if credited then 1 else 0
    {
      var currentBalance := Available(policy, employee);
      if currentBalance >= policy.maxBalance {
        return false;
      }
      var creditAmount := Min(policy.accrualRate, policy.maxBalance - currentBalance);
      if creditAmount <= 0 {
        return false;
      }
      RowsForOne(policy, employee.id, Entry(ACCRUAL, creditAmount), db.today);
      Insert(policy, employee, ACCRUAL, creditAmount);
      return true;
    }

    /** The development seed, which production skips. */
    method RunDevSeedAccruals(production: bool) returns (totalCredits: nat)
      modifies db`ledger
      ensures db.ledger == old(db.ledger) + (if production then [] else old(Due(DevSeed)))
      ensures totalCredits == |db.ledger| - |old(db.ledger)|
    {
      hide Fetch, Employees, EmployeeRows, PolicyRows, RowsFor, Entries;
      totalCredits := 0;
      if production {
        return;
      }
      var policies := Fetch(DevSeed, db.policies);
      NoRowsYet(DevSeed, db.users, db.ledger, db.today);
      for i := 0 to |policies|
        invariant db.ledger == old(db.ledger) + PolicyRows(DevSeed, policies[..i], db.users, old(db.ledger), db.today)
        invariant totalCredits == |db.ledger| - |old(db.ledger)|
      {
        var policy := policies[i];
        var employees := Employees(policy, db.users);
        ghost var start := db.ledger;
        NoEmployeeRowsYet(DevSeed, policy, start, db.today);
        for j := 0 to |employees|
          invariant db.ledger == start + EmployeeRows(DevSeed, policy, employees[..j], start, db.today)
          invariant totalCredits == |db.ledger| - |old(db.ledger)|
        {
          var credited := SeedFor(policy, employees[j]);
          if credited {
            totalCredits := totalCredits + 1;
          }
          NextEmployeeRows(DevSeed, policy, employees, j, start, db.today);
        }
        NextPolicyRows(DevSeed, policies, i, db.users, old(db.ledger), db.today);
      }
      assert policies[..|policies|] == policies;
    }

    /** The body of the seeding loop; it reports whether a credit was inserted. */
    method SeedFor(policy: Policy, employee: User) returns (credited: bool)
      modifies db`ledger
      ensures var balance := UsableBalance(old(db.ledger), Key(policy.tenantId, employee.id, policy.id), db.today);
              db.ledger == old(db.ledger) +
                RowsFor(policy, employee.id, Entries(DevSeed, policy, balance), db.today)
      ensures |db.ledger| == |old(db.ledger)| + if credited then 1 else 0
    {
      var currentBalance := Available(policy, employee);
      if currentBalance >= policy.accrualRate {
        return false;
      }
      var creditAmount := Min(policy.accrualRate, policy.maxBalance - currentBalance);
      if creditAmount <= 0 {
        return false;
      }
      RowsForOne(policy, employee.id, Entry(ACCRUAL, creditAmount), db.today);
      Insert(policy, employee, ACCRUAL, creditAmount);
      return true;
    }

    method RunYearEndCarryOver()
      modifies db`ledger
      ensures db.ledger == old(db.ledger) + old(Due(CarryOver))
    {
      hide Fetch, Employees, EmployeeRows, PolicyRows, RowsFor, Entries;
      var policies := Fetch(CarryOver, db.policies);
      NoRowsYet(CarryOver, db.users, db.ledger, db.today);
      for i := 0 to |policies|
        invariant db.ledger == old(db.ledger) + PolicyRows(CarryOver, policies[..i], db.users, old(db.ledger), db.today)
      {
        var policy := policies[i];
        var employees := Employees(policy, db.users);
        ghost var start := db.ledger;
        NoEmployeeRowsYet(CarryOver, policy, start, db.today);
        for j := 0 to |employees|
          invariant db.ledger == start + EmployeeRows(CarryOver, policy, employees[..j], start, db.today)
        {
          CarryOverFor(policy, employees[j]);
          NextEmployeeRows(CarryOver, policy, employees, j, start, db.today);
        }
        NextPolicyRows(CarryOver, policies, i, db.users, old(db.ledger), db.today);
      }
      assert policies[..|policies|] == policies;
    }

    /** The body of the carry-over loop. */
    method CarryOverFor(policy: Policy, employee: User)
      modifies db`ledger
      ensures var unused := UsableBalance(old(db.ledger), Key(policy.tenantId, employee.id, policy.id), db.today);
              db.ledger == old(db.ledger) + RowsFor(policy, employee.id, Entries(CarryOver, policy, unused), db.today)
    {
      var unusedDays := Available(policy, employee);
      if unusedDays <= 0 {
        return;
      }
      match policy.carryOverPolicy {
        case NoCarryOver =>
          RowsForOne(policy, employee.id, Entry(EXPIRY, -unusedDays), db.today);
          Insert(policy, employee, EXPIRY, -unusedDays);
        case Full =>
          RowsForOne(policy, employee.id, Entry(CARRY_OVER, unusedDays), db.today);
          Insert(policy, employee, CARRY_OVER, unusedDays);
        case Limited =>
          var limit := if policy.carryOverLimit.Some? then policy.carryOverLimit.value else 0;
          var carryAmount := Min(unusedDays, limit);
          var expireAmount := unusedDays - carryAmount;
          RowsForTwo(policy, employee.id, Entry(CARRY_OVER, carryAmount), Entry(EXPIRY, -expireAmount), db.today);
          if carryAmount > 0 {
            Insert(policy, employee, CARRY_OVER, carryAmount);
          }
          if expireAmount > 0 {
            Insert(policy, employee, EXPIRY, -expireAmount);
          }
        case NotApplicable =>
      }
    }
  }

  lemma RowsForOne(p: Policy, id: Id, e: Entry, today: int)
    ensures RowsFor(p, id, [e], today) == [RowFor(p, id, e, today)]
  {
    assert [e][..0] == [];
  }

  lemma RowsForTwo(p: Policy, id: Id, a: Entry, b: Entry, today: int)
    ensures RowsFor(p, id, [a] + [b], today) == [RowFor(p, id, a, today), RowFor(p, id, b, today)]
    ensures RowsFor(p, id, [a] + [], today) == [RowFor(p, id, a, today)]
    ensures RowsFor(p, id, [] + [b], today) == [RowFor(p, id, b, today)]
  {
    assert ([a] + [b])[..1] == [a] && [a] + [] == [a] && [] + [b] == [b];
    RowsForOne(p, id, a, today);
    RowsForOne(p, id, b, today);
  }

  lemma NoRowsYet(job: Job, users: seq<User>, ledger: seq<LedgerRow>, today: int)
    ensures ledger + PolicyRows(job, [], users, ledger, today) == ledger
  {
  }

  lemma NoEmployeeRowsYet(job: Job, p: Policy, ledger: seq<LedgerRow>, today: int)
    ensures ledger + EmployeeRows(job, p, [], ledger, today) == ledger
  {
  }

  /** One more turn of the inner loop. */
  lemma NextEmployeeRows(job: Job, p: Policy, employees: seq<User>, j: nat, ledger: seq<LedgerRow>, today: int)
    requires j < |employees|
    ensures var before := EmployeeRows(job, p, employees[..j], ledger, today);
            var balance := UsableBalance(ledger + before, Key(p.tenantId, employees[j].id, p.id), today);
            ledger + EmployeeRows(job, p, employees[..j + 1], ledger, today) ==
            ledger + before + RowsFor(p, employees[j].id, Entries(job, p, balance), today)
  {
    assert employees[..j + 1][..j] == employees[..j];
  }

  /** One more turn of the outer loop. */
  lemma NextPolicyRows(job: Job, policies: seq<Policy>, i: nat, users: seq<User>, ledger: seq<LedgerRow>, today: int)
    requires i < |policies|
    ensures var before := PolicyRows(job, policies[..i], users, ledger, today);
            var employees := Employees(policies[i], users);
            ledger + PolicyRows(job, policies[..i + 1], users, ledger, today) ==
            ledger + before + EmployeeRows(job, policies[i], employees[..|employees|], ledger + before, today)
  {
    assert policies[..i + 1][..i] == policies[..i];
    var employees := Employees(policies[i], users);
    assert employees[..|employees|] == employees;
  }
}
