/** Whole-run laws of the scheduled jobs: closed forms, caps, fixpoints, and what carry-over really does. */
module AccrualLaws {
  import opened LeaveTypes
  import opened Ledger
  import opened AccrualJobs
  import opened Numbers

  // ---- Many runs of one job ----

  /** The ledger after n runs of the job on the same day. */
  function RunTimes(job: Job, policies: seq<Policy>, users: seq<User>, ledger: seq<LedgerRow>, today: int, n: nat)
    : seq<LedgerRow>
  {
    if n == 0 then ledger
    else
      var before := RunTimes(job, policies, users, ledger, today, n - 1);
      before + JobRows(job, policies, users, before, today)
  }

  /** The balance of one covered employee after n runs. */
  function BalanceAfter(job: Job, p: Policy, balance: int, n: nat): int {
    if n == 0 then balance
    else var before := BalanceAfter(job, p, balance, n - 1); before + Delta(job, p, before)
  }

  /** n runs over all policies and employees act on each key as n runs for that employee alone. */
  lemma {:induction false} RunTimesBalance(job: Job, policies: seq<Policy>, users: seq<User>, ledger: seq<LedgerRow>,
                                           today: int, n: nat, key: Key)
    requires DistinctUsers(users) && DistinctPolicies(policies)
    ensures var c := CoveringPolicy(Fetch(job, policies), users, key);
            var b := UsableBalance(ledger, key, today);
            UsableBalance(RunTimes(job, policies, users, ledger, today, n), key, today) ==
            if c.Some? then BalanceAfter(job, c.value, b, n) else b
  {
    hide DistinctUsers, DistinctPolicies, UsableBalance, JobRows, Delta, CoveringPolicy, Fetch;
    if n == 0 {
    } else {
      RunTimesBalance(job, policies, users, ledger, today, n - 1, key);
      JobChangesBalance(job, policies, users, RunTimes(job, policies, users, ledger, today, n - 1), today, key);
    }
  }

  // ---- Monthly and yearly accrual ----

  lemma NetOfOne(e: Entry)
    ensures Net([e]) == e.amount
  {
    assert [e][..0] == [];
  }

  /** One accrual: the rate, cut off at the maximum; nothing at or above the maximum, or for no rate. */
  lemma AccrualDelta(frequency: AccrualFrequency, p: Policy, b: int)
    ensures Delta(Accrual(frequency), p, b) ==
            if b >= p.maxBalance then 0 else Min(Max(p.accrualRate, 0), p.maxBalance - b)
  {
    NetOfOne(Entry(ACCRUAL, Min(p.accrualRate, p.maxBalance - b)));
  }

  /** n accrual runs alone: straight to min(max, b + n * rate), or no change from above the maximum. */
  lemma {:induction false} AccrualClosedForm(frequency: AccrualFrequency, p: Policy, b: int, n: nat)
    ensures BalanceAfter(Accrual(frequency), p, b, n) ==
            if b >= p.maxBalance then b else Min(p.maxBalance, b + n * Max(p.accrualRate, 0))
  {
    if n > 0 {
      AccrualClosedForm(frequency, p, b, n - 1);
      AccrualDelta(frequency, p, BalanceAfter(Accrual(frequency), p, b, n - 1));
      var r := Max(p.accrualRate, 0);
      assert n * r == (n - 1) * r + r;
    }
  }

  /** No accrual, scheduled or seeded, lifts a balance over the maximum. */
  lemma AccrualCap(job: Job, p: Policy, b: int)
    requires job != CarryOver && b <= p.maxBalance
    ensures 0 <= Delta(job, p, b) && b + Delta(job, p, b) <= p.maxBalance
  {
    NetOfOne(Entry(ACCRUAL, Min(p.accrualRate, p.maxBalance - b)));
  }

  // ---- The development seed ----

  lemma SeedDelta(p: Policy, b: int)
    ensures Delta(DevSeed, p, b) ==
            if b >= p.accrualRate then 0 else Max(Min(p.accrualRate, p.maxBalance - b), 0)
    ensures Entries(DevSeed, p, b) == [] <==> Delta(DevSeed, p, b) == 0
  {
    NetOfOne(Entry(ACCRUAL, Min(p.accrualRate, p.maxBalance - b)));
  }

  /** From a balance that is not negative, one seeding is enough: the next one has nothing to add. */
  lemma SeedSettlesAtOnce(p: Policy, b: int)
    requires b >= 0
    ensures Entries(DevSeed, p, b + Delta(DevSeed, p, b)) == []
  {
    SeedDelta(p, b);
    SeedDelta(p, b + Delta(DevSeed, p, b));
  }

  /** Once a run adds nothing, no later run does. */
  lemma {:induction false} SeedStaysSettled(p: Policy, b: int, m: nat, n: nat)
    requires m <= n && Entries(DevSeed, p, BalanceAfter(DevSeed, p, b, m)) == []
    ensures BalanceAfter(DevSeed, p, b, n) == BalanceAfter(DevSeed, p, b, m)
    decreases n
  {
    if m < n {
      SeedStaysSettled(p, b, m, n - 1);
      SeedDelta(p, BalanceAfter(DevSeed, p, b, m));
    }
  }

  /** The number of runs after which the seed has nothing to add, from any balance. */
  function SeedRuns(p: Policy, b: int): nat {
    if b < 0 && p.accrualRate > 0 then (-b + p.accrualRate - 1) / p.accrualRate + 1 else 1
  }

  /** While the balance is negative, n runs add the full rate each time, or have met the maximum. */
  lemma {:induction false} SeedClimbs(p: Policy, b: int, n: nat)
    requires p.accrualRate > 0 && b <= p.maxBalance && (n > 0 ==> b + (n - 1) * p.accrualRate < 0)
    ensures BalanceAfter(DevSeed, p, b, n) == Min(p.maxBalance, b + n * p.accrualRate)
  {
    hide Entries, Delta;
    if n > 0 {
      var r := p.accrualRate;
      assert n * r == (n - 1) * r + r;
      if n > 1 {
        assert (n - 1) * r == (n - 2) * r + r;
      }
      SeedClimbs(p, b, n - 1);
      SeedDelta(p, BalanceAfter(DevSeed, p, b, n - 1));
    }
  }

  lemma CeilingBounds(x: nat, r: int)
    requires r > 0
    ensures var k := (x + r - 1) / r; k * r >= x && (k - 1) * r < x
  {
    var k := (x + r - 1) / r;
    assert x + r - 1 == k * r + (x + r - 1) % r;
    assert (k - 1) * r == k * r - r;
  }

  /** Every balance, rate and maximum reaches the fixpoint after SeedRuns runs and stays there: negative
      balances too, and neither the rate nor the maximum has to be positive. */
  lemma SeedReachesFixpoint(p: Policy, b: int, n: nat)
    requires n >= SeedRuns(p, b)
    ensures Entries(DevSeed, p, BalanceAfter(DevSeed, p, b, n)) == []
    ensures BalanceAfter(DevSeed, p, b, n) == BalanceAfter(DevSeed, p, b, SeedRuns(p, b))
  {
    SeedSettledAfter(p, b);
    SeedStaysSettled(p, b, SeedRuns(p, b), n);
  }

  lemma SeedSettledAfter(p: Policy, b: int)
    ensures Entries(DevSeed, p, BalanceAfter(DevSeed, p, b, SeedRuns(p, b))) == []
  {
    hide Entries, Delta;
    var m := SeedRuns(p, b);
    if b < 0 && p.accrualRate > 0 && b <= p.maxBalance {
      CeilingBounds(-b, p.accrualRate);
      SeedClimbs(p, b, m - 1);
      SeedSettlesNext(p, BalanceAfter(DevSeed, p, b, m - 1));
    } else if b < 0 && p.accrualRate > 0 {
      SeedDelta(p, b);
      SeedStaysSettled(p, b, 0, m);
    } else {
      SeedSettlesNext(p, b);
      assert BalanceAfter(DevSeed, p, b, 0) == b;
    }
  }

  /** One run settles a balance that is not negative, or is at the maximum, or has no rate to grow by. */
  lemma SeedSettlesNext(p: Policy, b: int)
    requires b >= 0 || b == p.maxBalance || p.accrualRate <= 0
    ensures Entries(DevSeed, p, b + Delta(DevSeed, p, b)) == []
  {
    hide Entries, Delta;
    SeedDelta(p, b);
    SeedDelta(p, b + Delta(DevSeed, p, b));
  }

  /** A job appends nothing when it has no entry for any employee it covers. */
  lemma {:induction false} NoEmployeeRows(job: Job, p: Policy, employees: seq<User>, ledger: seq<LedgerRow>, today: int)
    requires forall u <- employees :: Entries(job, p, UsableBalance(ledger, Key(p.tenantId, u.id, p.id), today)) == []
    ensures EmployeeRows(job, p, employees, ledger, today) == []
  {
    if employees != [] {
      NoEmployeeRows(job, p, employees[..|employees| - 1], ledger, today);
      assert ledger + [] == ledger;
    }
  }

  lemma {:induction false} NoPolicyRows(
    job: Job, policies: seq<Policy>, users: seq<User>, ledger: seq<LedgerRow>, today: int)
    requires forall p <- policies, u <- Employees(p, users) ::
               Entries(job, p, UsableBalance(ledger, Key(p.tenantId, u.id, p.id), today)) == []
    ensures PolicyRows(job, policies, users, ledger, today) == []
  {
    if policies != [] {
      var init, p := policies[..|policies| - 1], policies[|policies| - 1];
      NoPolicyRows(job, init, users, ledger, today);
      assert ledger + [] == ledger && p in policies;
      NoEmployeeRows(job, p, Employees(p, users), ledger, today);
    }
  }

  lemma {:induction false} CoveringPolicyOf(policies: seq<Policy>, users: seq<User>, p: Policy, u: User)
    requires DistinctPolicies(policies) && p in policies && u in Employees(p, users)
    ensures CoveringPolicy(policies, users, Key(p.tenantId, u.id, p.id)) == Some(p)
  {
    var init, last := policies[..|policies| - 1], policies[|policies| - 1];
    LastPolicyIsNew(policies);
    if last == p {
      assert HasUser(Employees(p, users), u.id);
    } else {
      assert policies == init + [last];
      CoveringPolicyOf(init, users, p, u);
    }
  }

  /** Over the whole table: if no covered balance is negative, the second seeding appends no row at all. */
  lemma SecondSeedAppendsNothing(policies: seq<Policy>, users: seq<User>, ledger: seq<LedgerRow>, today: int)
    requires DistinctUsers(users) && DistinctPolicies(policies)
    requires forall p <- Fetch(DevSeed, policies), u <- Employees(p, users) ::
               UsableBalance(ledger, Key(p.tenantId, u.id, p.id), today) >= 0
    ensures var once := ledger + JobRows(DevSeed, policies, users, ledger, today);
            JobRows(DevSeed, policies, users, once, today) == []
  {
    hide DistinctUsers, DistinctPolicies, Entries, Delta, UsableBalance, JobRows, Employees;
    var once := ledger + JobRows(DevSeed, policies, users, ledger, today);
    var fetched := Fetch(DevSeed, policies);
    FetchMembers(DevSeed, policies);
    forall p, u | p in fetched && u in Employees(p, users)
      ensures Entries(DevSeed, p, UsableBalance(once, Key(p.tenantId, u.id, p.id), today)) == []
    {
      var key := Key(p.tenantId, u.id, p.id);
      CoveringPolicyOf(fetched, users, p, u);
      JobChangesBalance(DevSeed, policies, users, ledger, today, key);
      SeedSettlesAtOnce(p, UsableBalance(ledger, key, today));
    }
    NoPolicyRows(DevSeed, fetched, users, once, today);
    JobRowsAre(DevSeed, policies, users, once, today);
  }

  lemma JobRowsAre(job: Job, policies: seq<Policy>, users: seq<User>, ledger: seq<LedgerRow>, today: int)
    ensures JobRows(job, policies, users, ledger, today) == PolicyRows(job, Fetch(job, policies), users, ledger, today)
  {
  }

  // ---- Year-end carry-over ----

  function Limit(p: Policy): int {
    if p.carryOverLimit.Some? then p.carryOverLimit.value else 0
  }

  /** The balance after carry-over. The unused days are still settled when the carried days are added to
      them, so carried days count twice; only expiry takes days away. */
  function CarriedBalance(p: Policy, unused: int): int {
    if unused <= 0 then unused
    else
      match p.carryOverPolicy
      case NoCarryOver => 0
      case Full => 2 * unused
      case Limited => if Limit(p) >= 0 then 2 * Min(unused, Limit(p)) else Limit(p)
      case NotApplicable => unused
  }

  /** The rule carries more days than there is room for on top of the days that stay. */
  predicate Overfills(p: Policy, unused: int) {
    && unused > 0
    && ((p.carryOverPolicy == Full && 2 * unused > p.maxBalance) ||
        (p.carryOverPolicy == Limited && 2 * Min(unused, Limit(p)) > p.maxBalance))
  }

  /** A carry-over takes a balance within the maximum over it exactly if it overfills it; None and NA never do. */
  lemma CarryOverCap(p: Policy, unused: int)
    requires unused <= p.maxBalance
    ensures unused + Delta(CarryOver, p, unused) <= p.maxBalance <==> !Overfills(p, unused)
  {
    CarryOverDelta(p, unused);
  }

  /** The rule expires days that are spoken for: None as soon as there are any, Limited if they are more than twice the
      limit, or more than a negative limit leaves. */
  predicate ExpiresCommitted(p: Policy, unused: int, committed: int) {
    && unused > 0
    && ((p.carryOverPolicy == NoCarryOver && committed > 0) ||
        (p.carryOverPolicy == Limited && committed > if Limit(p) >= 0 then 2 * Limit(p) else Limit(p)))
  }

  /** A carry-over leaves days covered that were covered before, exactly if it does not expire them; Full and NA never
      do. */
  lemma CarryOverCovers(p: Policy, unused: int, committed: int)
    requires committed <= unused
    ensures committed <= unused + Delta(CarryOver, p, unused) <==> !ExpiresCommitted(p, unused, committed)
  {
    CarryOverDelta(p, unused);
  }

  lemma CarryOverDelta(p: Policy, unused: int)
    ensures unused + Delta(CarryOver, p, unused) == CarriedBalance(p, unused)
  {
    if unused > 0 {
      NetOfOne(Entry(EXPIRY, -unused));
      NetOfOne(Entry(CARRY_OVER, unused));
      var carry := Min(unused, Limit(p));
      NetOfOne(Entry(CARRY_OVER, carry));
      NetOfOne(Entry(EXPIRY, -(unused - carry)));
      assert [Entry(CARRY_OVER, carry)] + [Entry(EXPIRY, -(unused - carry))] ==
             [Entry(CARRY_OVER, carry), Entry(EXPIRY, -(unused - carry))];
      assert [Entry(CARRY_OVER, carry), Entry(EXPIRY, -(unused - carry))][..1] == [Entry(CARRY_OVER, carry)];
    }
  }

  function AmountOf(entries: seq<Entry>, entryType: EntryType): int {
    if entries == [] then 0
    else AmountOf(entries[..|entries| - 1], entryType) +
         if entries[|entries| - 1].entryType == entryType then entries[|entries| - 1].amount else 0
  }

  lemma AmountOfEntries(a: Entry, b: Entry, entryType: EntryType)
    ensures AmountOf([a], entryType) == if a.entryType == entryType then a.amount else 0
    ensures AmountOf([a, b], entryType) == AmountOf([a], entryType) + AmountOf([b], entryType)
  {
    assert [a][..0] == [] && [b][..0] == [] && [a, b][..1] == [a];
  }

  /** A Limited policy with a limit that is not negative splits the unused days: what is carried and what
      expires make up the whole, and no more than the limit is carried. */
  lemma LimitedSplitsUnused(p: Policy, unused: int)
    requires p.carryOverPolicy == Limited && unused > 0 && Limit(p) >= 0
    ensures var entries := Entries(CarryOver, p, unused);
            var carried, expired := AmountOf(entries, CARRY_OVER), -AmountOf(entries, EXPIRY);
            carried + expired == unused && 0 <= carried <= Limit(p) && 0 <= expired
  {
    var carry := Min(unused, Limit(p));
    var a, b := Entry(CARRY_OVER, carry), Entry(EXPIRY, -(unused - carry));
    assert [a] + [b] == [a, b] && [a] + [] == [a] && [] + [b] == [b];
    AmountOfEntries(a, b, CARRY_OVER);
    AmountOfEntries(a, b, EXPIRY);
    AmountOfEntries(b, a, CARRY_OVER);
    AmountOfEntries(b, a, EXPIRY);
  }

  /** One carry-over run over the whole nested loop: every covered balance becomes its CarriedBalance and
      every other balance stays. */
  lemma CarryOverBalances(policies: seq<Policy>, users: seq<User>, ledger: seq<LedgerRow>, today: int, key: Key)
    requires DistinctUsers(users) && DistinctPolicies(policies)
    ensures var c := CoveringPolicy(Fetch(CarryOver, policies), users, key);
            var unused := UsableBalance(ledger, key, today);
            UsableBalance(ledger + JobRows(CarryOver, policies, users, ledger, today), key, today) ==
            if c.Some? then CarriedBalance(c.value, unused) else unused
  {
    JobChangesBalance(CarryOver, policies, users, ledger, today, key);
    var c := CoveringPolicy(Fetch(CarryOver, policies), users, key);
    if c.Some? {
      CarryOverDelta(c.value, UsableBalance(ledger, key, today));
    }
  }

  // ---- One run, in the columns of the tables ----

  /** An active policy of the key, one of whose departments is the employee's. */
  predicate Reaches(p: Policy, users: seq<User>, key: Key) {
    && p.isActive && p.id == key.policyId && p.tenantId == key.tenantId
    && exists u <- users :: u.id == key.employeeId && u.departmentId.Some? && u.departmentId.value in p.departmentIds
  }

  /** The run changes the key's balance by so much, whether or not future rows count. */
  predicate Moves(job: Job, policies: seq<Policy>, users: seq<User>, ledger: seq<LedgerRow>, today: int, key: Key,
                  change: int)
  {
    var after := ledger + JobRows(job, policies, users, ledger, today);
    && UsableBalance(after, key, today) == UsableBalance(ledger, key, today) + change
    && Sum(after, Settled(key)) == Sum(ledger, Settled(key)) + change
  }

  lemma ReachedPolicyMoves(job: Job, policies: seq<Policy>, users: seq<User>, ledger: seq<LedgerRow>, today: int,
                           key: Key, p: Policy)
    requires DistinctUsers(users) && DistinctPolicies(policies)
    requires p in policies && Reaches(p, users, key) && (p.isActive ==> Selects(job, p))
    ensures Moves(job, policies, users, ledger, today, key, Delta(job, p, UsableBalance(ledger, key, today)))
  {
    hide DistinctUsers, DistinctPolicies, Selects, UsableBalance, JobRows, Delta;
    FetchMembers(job, policies);
    UsersInAnyMembers(users, p.departmentIds);
    var u :| u in users && u.id == key.employeeId && u.departmentId.Some? && u.departmentId.value in p.departmentIds;
    CoveringPolicyOf(Fetch(job, policies), users, p, u);
    JobChangesBalance(job, policies, users, ledger, today, key);
  }

  lemma CoveringPolicyReaches(job: Job, policies: seq<Policy>, users: seq<User>, key: Key)
    ensures var c := CoveringPolicy(Fetch(job, policies), users, key);
            c.Some? ==> c.value in policies && Selects(job, c.value) && Reaches(c.value, users, key)
  {
    FetchMembers(job, policies);
    CoveringPolicyIs(Fetch(job, policies), users, key);
    var c := CoveringPolicy(Fetch(job, policies), users, key);
    if c.Some? {
      UsersInAnyMembers(users, c.value.departmentIds);
    }
  }

  lemma UnreachedStays(job: Job, policies: seq<Policy>, users: seq<User>, ledger: seq<LedgerRow>, today: int, key: Key)
    requires DistinctUsers(users) && DistinctPolicies(policies)
    requires forall p <- policies :: !(Selects(job, p) && Reaches(p, users, key))
    ensures Moves(job, policies, users, ledger, today, key, 0)
  {
    hide DistinctUsers, DistinctPolicies, UsableBalance, JobRows, Delta, Reaches, Selects;
    CoveringPolicyReaches(job, policies, users, key);
    JobChangesBalance(job, policies, users, ledger, today, key);
  }

  /** The accrual job credits an employee under the active policies of its own frequency that name the employee's
      department, by the rate up to the maximum, and changes no other balance. */
  lemma AccrualReaches(frequency: AccrualFrequency, policies: seq<Policy>, users: seq<User>, ledger: seq<LedgerRow>,
                       today: int, key: Key)
    requires DistinctUsers(users) && DistinctPolicies(policies)
    ensures forall p <- policies :: Reaches(p, users, key) && p.accrual == frequency ==>
              var b := UsableBalance(ledger, key, today);
              Moves(Accrual(frequency), policies, users, ledger, today, key,
                    if b >= p.maxBalance then 0 else Min(Max(p.accrualRate, 0), p.maxBalance - b))
    ensures (forall p <- policies :: !(Reaches(p, users, key) && p.accrual == frequency)) ==>
              Moves(Accrual(frequency), policies, users, ledger, today, key, 0)
  {
    hide DistinctUsers, DistinctPolicies, Reaches, Moves;
    forall p | p in policies && Reaches(p, users, key) && p.accrual == frequency
      ensures var b := UsableBalance(ledger, key, today);
              Moves(Accrual(frequency), policies, users, ledger, today, key,
                    if b >= p.maxBalance then 0 else Min(Max(p.accrualRate, 0), p.maxBalance - b))
    {
      ReachedPolicyMoves(Accrual(frequency), policies, users, ledger, today, key, p);
      AccrualDelta(frequency, p, UsableBalance(ledger, key, today));
    }
    if forall p <- policies :: !(Reaches(p, users, key) && p.accrual == frequency) {
      UnreachedStays(Accrual(frequency), policies, users, ledger, today, key);
    }
  }

  /** The seed does the same under yearly and one-time policies, for balances below the rate. */
  lemma SeedReaches(policies: seq<Policy>, users: seq<User>, ledger: seq<LedgerRow>, today: int, key: Key)
    requires DistinctUsers(users) && DistinctPolicies(policies)
    ensures forall p <- policies :: Reaches(p, users, key) && (p.accrual == Yearly || p.accrual == OneTime) ==>
              var b := UsableBalance(ledger, key, today);
              Moves(DevSeed, policies, users, ledger, today, key,
                    if b >= p.accrualRate then 0 else Max(Min(p.accrualRate, p.maxBalance - b), 0))
    ensures (forall p <- policies :: !(Reaches(p, users, key) && (p.accrual == Yearly || p.accrual == OneTime))) ==>
              Moves(DevSeed, policies, users, ledger, today, key, 0)
  {
    hide DistinctUsers, DistinctPolicies, Reaches, Moves;
    forall p | p in policies && Reaches(p, users, key) && (p.accrual == Yearly || p.accrual == OneTime)
      ensures var b := UsableBalance(ledger, key, today);
              Moves(DevSeed, policies, users, ledger, today, key,
                    if b >= p.accrualRate then 0 else Max(Min(p.accrualRate, p.maxBalance - b), 0))
    {
      ReachedPolicyMoves(DevSeed, policies, users, ledger, today, key, p);
      SeedDelta(p, UsableBalance(ledger, key, today));
    }
    if forall p <- policies :: !(Reaches(p, users, key) && (p.accrual == Yearly || p.accrual == OneTime)) {
      UnreachedStays(DevSeed, policies, users, ledger, today, key);
    }
  }

  /** The carry-over brings every balance under an active policy that names the employee's department to its
      CarriedBalance, whatever the policy's frequency, and changes no other. */
  lemma CarryOverReaches(policies: seq<Policy>, users: seq<User>, ledger: seq<LedgerRow>, today: int, key: Key)
    requires DistinctUsers(users) && DistinctPolicies(policies)
    ensures forall p <- policies :: Reaches(p, users, key) ==>
              var b := UsableBalance(ledger, key, today);
              Moves(CarryOver, policies, users, ledger, today, key, CarriedBalance(p, b) - b)
    ensures (forall p <- policies :: !Reaches(p, users, key)) ==>
              Moves(CarryOver, policies, users, ledger, today, key, 0)
  {
    hide DistinctUsers, DistinctPolicies, Reaches, Moves;
    forall p | p in policies && Reaches(p, users, key)
      ensures var b := UsableBalance(ledger, key, today);
              Moves(CarryOver, policies, users, ledger, today, key, CarriedBalance(p, b) - b)
    {
      ReachedPolicyMoves(CarryOver, policies, users, ledger, today, key, p);
      CarryOverDelta(p, UsableBalance(ledger, key, today));
    }
    if forall p <- policies :: !Reaches(p, users, key) {
      UnreachedStays(CarryOver, policies, users, ledger, today, key);
    }
  }

  /** The balance keeps to a policy's carry-over promise, min(unused, limit), exactly in these cases: the
      promise is nothing and nothing is kept, or the rule does not apply. As coded it is broken whenever
      any days are carried. */
  lemma CarryOverKeepsPromise(p: Policy, unused: int)
    requires unused > 0 && Limit(p) >= 0
    ensures var promised := match p.carryOverPolicy
              case NoCarryOver => 0
              case Full => unused
              case Limited => Min(unused, Limit(p))
              case NotApplicable => unused;
            unused + Delta(CarryOver, p, unused) == promised <==>
            p.carryOverPolicy == NoCarryOver || p.carryOverPolicy == NotApplicable ||
            (p.carryOverPolicy == Limited && Limit(p) == 0)
  {
    CarryOverDelta(p, unused);
  }

  /** Under None, a second run has nothing left to expire. */
  lemma SecondExpiryAppendsNothing(p: Policy, unused: int)
    requires p.carryOverPolicy == NoCarryOver
    ensures Entries(CarryOver, p, unused + Delta(CarryOver, p, unused)) == []
  {
    CarryOverDelta(p, unused);
  }

  function Pow2(n: nat): nat {
    if n == 0 then 1 else 2 * Pow2(n - 1)
  }

  /** n carry-overs in a row: Full doubles the balance every time, and Limited drives it to twice the limit. */
  lemma {:induction false} CarryOverClosedForm(p: Policy, unused: int, n: nat)
    requires unused > 0 && n > 0 && Limit(p) >= 0
    ensures BalanceAfter(CarryOver, p, unused, n) ==
            match p.carryOverPolicy
            case NoCarryOver => 0
            case Full => Pow2(n) * unused
            case Limited => Min(Pow2(n) * unused, 2 * Limit(p))
            case NotApplicable => unused
  {
    hide Delta, Entries;
    var before := BalanceAfter(CarryOver, p, unused, n - 1);
    CarryOverDelta(p, before);
    if n > 1 {
      CarryOverClosedForm(p, unused, n - 1);
      assert Pow2(n) * unused == 2 * (Pow2(n - 1) * unused);
      PowersGrow(n - 1, unused);
    } else {
      assert Pow2(1) == 2 * Pow2(0) == 2;
    }
  }

  lemma {:induction false} PowersGrow(n: nat, unused: int)
    requires unused > 0
    ensures Pow2(n) * unused > 0
  {
    if n > 0 {
      PowersGrow(n - 1, unused);
      assert Pow2(n) * unused == 2 * (Pow2(n - 1) * unused);
    }
  }

  /** Over the whole table: if no policy carries days over, the second run appends no row at all. */
  lemma SecondCarryOverAppendsNothing(policies: seq<Policy>, users: seq<User>, ledger: seq<LedgerRow>, today: int)
    requires DistinctUsers(users) && DistinctPolicies(policies)
    requires forall p <- Fetch(CarryOver, policies) ::
               p.carryOverPolicy == NoCarryOver || p.carryOverPolicy == NotApplicable
    ensures var once := ledger + JobRows(CarryOver, policies, users, ledger, today);
            JobRows(CarryOver, policies, users, once, today) == []
  {
    hide DistinctUsers, DistinctPolicies, Delta, UsableBalance, JobRows, Employees;
    var once := ledger + JobRows(CarryOver, policies, users, ledger, today);
    var fetched := Fetch(CarryOver, policies);
    FetchMembers(CarryOver, policies);
    forall p, u | p in fetched && u in Employees(p, users)
      ensures Entries(CarryOver, p, UsableBalance(once, Key(p.tenantId, u.id, p.id), today)) == []
    {
      var key := Key(p.tenantId, u.id, p.id);
      CoveringPolicyOf(fetched, users, p, u);
      JobChangesBalance(CarryOver, policies, users, ledger, today, key);
      if p.carryOverPolicy == NoCarryOver {
        SecondExpiryAppendsNothing(p, UsableBalance(ledger, key, today));
      }
    }
    hide Entries;
    NoPolicyRows(CarryOver, fetched, users, once, today);
    JobRowsAre(CarryOver, policies, users, once, today);
  }

  // ---- The kinds of rows ----

  /** Credits are accruals or carried days, debits are expiries, and nothing is zero. */
  predicate KindFits(entryType: EntryType, amount: int) {
    || (amount > 0 && (entryType == ACCRUAL || entryType == CARRY_OVER))
    || (amount < 0 && entryType == EXPIRY)
  }

  lemma EntryKinds(job: Job, p: Policy, balance: int)
    ensures forall e <- Entries(job, p, balance) ::
              KindFits(e.entryType, e.amount) && (job == CarryOver <==> e.entryType != ACCRUAL)
  {
  }

  predicate RowKindFits(job: Job, row: LedgerRow) {
    KindFits(row.entryType, row.amount) && (job == CarryOver <==> row.entryType != ACCRUAL)
  }

  lemma {:induction false} RowsForKinds(job: Job, p: Policy, employeeId: Id, entries: seq<Entry>, today: int)
    requires forall e <- entries :: KindFits(e.entryType, e.amount) && (job == CarryOver <==> e.entryType != ACCRUAL)
    ensures forall row <- RowsFor(p, employeeId, entries, today) :: RowKindFits(job, row)
  {
    if entries != [] {
      RowsForKinds(job, p, employeeId, entries[..|entries| - 1], today);
    }
  }

  lemma {:induction false} EmployeeRowKinds(job: Job, p: Policy, employees: seq<User>, ledger: seq<LedgerRow>,
      today: int)
    ensures forall row <- EmployeeRows(job, p, employees, ledger, today) :: RowKindFits(job, row)
  {
    hide Entries, RowKindFits, UsableBalance;
    if employees != [] {
      var init, employee := employees[..|employees| - 1], employees[|employees| - 1];
      EmployeeRowKinds(job, p, init, ledger, today);
      var balance := UsableBalance(ledger + EmployeeRows(job, p, init, ledger, today),
                                   Key(p.tenantId, employee.id, p.id), today);
      EntryKinds(job, p, balance);
      RowsForKinds(job, p, employee.id, Entries(job, p, balance), today);
    }
  }

  lemma {:induction false} PolicyRowKinds(
    job: Job, policies: seq<Policy>, users: seq<User>, ledger: seq<LedgerRow>, today: int)
    ensures forall row <- PolicyRows(job, policies, users, ledger, today) :: RowKindFits(job, row)
  {
    if policies != [] {
      var init, p := policies[..|policies| - 1], policies[|policies| - 1];
      PolicyRowKinds(job, init, users, ledger, today);
      EmployeeRowKinds(job, p, Employees(p, users), ledger + PolicyRows(job, init, users, ledger, today), today);
    }
  }

  /** Every row a job appends is of the job's kind and has the sign of that kind. */
  lemma JobRowKinds(job: Job, policies: seq<Policy>, users: seq<User>, ledger: seq<LedgerRow>, today: int)
    ensures forall row <- JobRows(job, policies, users, ledger, today) :: RowKindFits(job, row)
  {
    PolicyRowKinds(job, Fetch(job, policies), users, ledger, today);
  }
}
