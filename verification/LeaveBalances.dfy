/** The balances shown to an employee, and what they mean in terms of requests and jobs. */
module LeaveBalances {
  import opened LeaveTypes
  import opened Ledger
  import opened LeaveHandlers
  import opened LeaveInvariants
  import opened LeaveDatabase
  import opened Numbers

  datatype BalanceResult = BalanceResult(
    leaveType: LeaveType, policyMax: int, accrued: int, used: int, pending: int, remaining: int)

  function Abs(x: int): int {
    if x < 0 then -x else x
  }

  /** The three aggregates of one policy and what is displayed of them. */
  function Displayed(ledger: seq<LedgerRow>, p: Policy, key: Key, today: int): BalanceResult {
    var accrued := Sum(ledger, Where(key, false, Credits, Some(today)));
    var used := Abs(Sum(ledger, Where(key, false, Debits, None)));
    var pending := Abs(Sum(ledger, Where(key, true, Debits, None)));
    BalanceResult(p.leaveType, p.maxBalance, accrued, used, pending, Max(accrued - used - pending, 0))
  }

  function ActivePolicies(policies: seq<Policy>, tenantId: Id): seq<Policy> {
    if policies == [] then []
    else
      var p := policies[|policies| - 1];
      ActivePolicies(policies[..|policies| - 1], tenantId) + if p.tenantId == tenantId && p.isActive then [p] else []
  }

  /** One result per active policy of the tenant, in the order of the query. */
  method GetMyLeaveBalances(db: Database, employeeId: Id, tenantId: Id) returns (results: seq<BalanceResult>)
    ensures var policies := ActivePolicies(db.policies, tenantId);
            && |results| == |policies|
            && forall i :: 0 <= i < |policies| ==>
                 results[i] == Displayed(db.ledger, policies[i], Key(tenantId, employeeId, policies[i].id), db.today)
  {
    var policies := ActivePolicies(db.policies, tenantId);
    results := [];
    for i := 0 to |policies|
      invariant |results| == i
      invariant forall j :: 0 <= j < i ==>
                  results[j] == Displayed(db.ledger, policies[j], Key(tenantId, employeeId, policies[j].id), db.today)
    {
      var key := Key(tenantId, employeeId, policies[i].id);
      var totalAccrued := Sum(db.ledger, Where(key, false, Credits, Some(db.today)));
      var totalUsed := Abs(Sum(db.ledger, Where(key, false, Debits, None)));
      var totalPending := Abs(Sum(db.ledger, Where(key, true, Debits, None)));
      var remaining := Max(totalAccrued - totalUsed - totalPending, 0);
      results := results +
        [BalanceResult(policies[i].leaveType, policies[i].maxBalance, totalAccrued, totalUsed, totalPending,
          remaining)];
    }
  }

  lemma ActivePoliciesAppend(policies: seq<Policy>, p: Policy, tenantId: Id)
    ensures ActivePolicies(policies + [p], tenantId) ==
            ActivePolicies(policies, tenantId) + if p.isActive && p.tenantId == tenantId then [p] else []
  {
    assert (policies + [p])[..|policies|] == policies;
  }

  lemma {:induction false} ActivePoliciesConcat(a: seq<Policy>, b: seq<Policy>, tenantId: Id)
    ensures ActivePolicies(a + b, tenantId) == ActivePolicies(a, tenantId) + ActivePolicies(b, tenantId)
  {
    if b == [] {
      assert a + b == a;
    } else {
      hide ActivePolicies;
      var init, last := b[..|b| - 1], b[|b| - 1];
      assert a + init + [last] == a + b && init + [last] == b;
      ActivePoliciesConcat(a, init, tenantId);
      ActivePoliciesAppend(a + init, last, tenantId);
      ActivePoliciesAppend(init, last, tenantId);
    }
  }

  /** A policy at any place of the table is listed, at its place, exactly if it is an active one of the tenant. */
  lemma ListedPolicies(a: seq<Policy>, p: Policy, b: seq<Policy>, tenantId: Id)
    ensures ActivePolicies([], tenantId) == []
    ensures ActivePolicies(a + [p] + b, tenantId) ==
            ActivePolicies(a, tenantId) + (if p.isActive && p.tenantId == tenantId then [p] else []) +
            ActivePolicies(b, tenantId)
  {
    ActivePoliciesConcat(a + [p], b, tenantId);
    ActivePoliciesAppend(a, p, tenantId);
  }

  // ---- What the numbers mean ----

  lemma {:induction false} ApprovedSoFar(requests: seq<LeaveRequest>, key: Key, today: int)
    requires forall r <- requests :: r.totalDays >= 0
    ensures 0 <= ApprovedDays(requests, key, Some(today)) <= ApprovedDays(requests, key, None)
    ensures 0 <= InFlightDays(requests, key)
  {
    if requests != [] {
      ApprovedSoFar(requests[..|requests| - 1], key, today);
    }
  }

  /** Credits in effect less every settled debit are the whole settled balance, because no credit is dated
      in the future. */
  lemma AccruedLessUsed(s: State, key: Key)
    requires LedgerInv(s)
    ensures Sum(s.ledger, Where(key, false, Credits, Some(s.today))) + Sum(s.ledger, Where(key, false, Debits, None)) ==
            Sum(s.ledger, Settled(key))
  {
    LateRowsAreDebits(s);
    hide LedgerInv;
    SumAgree(s.ledger, Where(key, false, Credits, Some(s.today)), Where(key, false, Credits, None));
    SumSplit(s.ledger, Settled(key), Where(key, false, Credits, None), Where(key, false, Debits, None));
  }

  /** In every reachable state the displayed figures refine the ledger and the request table: pending is
      the employee's days in flight; accrued less used is the settled balance; remaining is what is usable
      now, less approved leave still to come, less what is in flight, and not below zero. So it never
      promises more than a reservation would find. */
  lemma DisplayedBalance(s: State, p: Policy, key: Key)
    requires LedgerInv(s)
    ensures var d := Displayed(s.ledger, p, key, s.today);
            var usable := UsableBalance(s.ledger, key, s.today);
            var toCome := ApprovedDays(s.requests, key, None) - ApprovedDays(s.requests, key, Some(s.today));
            && d.leaveType == p.leaveType && d.policyMax == p.maxBalance
            && d.pending == InFlightDays(s.requests, key)
            && d.accrued - d.used == Sum(s.ledger, Settled(key)) == usable - toCome
            && d.remaining == Max(usable - toCome - d.pending, 0)
            && 0 <= toCome && 0 <= d.pending && d.remaining <= Max(usable, 0)
  {
    AccruedLessUsed(s, key);
    PendingDebits(s, key);
    UsedIsNotPositive(s, key);
    Conservation(s, key);
    forall r | r in s.requests
      ensures r.totalDays >= 0
    {
      assert OwnsItsRows(s.ledger, r);
    }
    ApprovedSoFar(s.requests, key, s.today);
  }

  lemma PendingDebits(s: State, key: Key)
    requires LedgerInv(s)
    ensures Sum(s.ledger, Where(key, true, Debits, None)) == Sum(s.ledger, Pending(key))
  {
    LateRowsAreDebits(s);
    hide LedgerInv;
    SumAgree(s.ledger, Where(key, true, Debits, None), Pending(key));
  }

  lemma UsedIsNotPositive(s: State, key: Key)
    ensures Sum(s.ledger, Where(key, false, Debits, None)) <= 0
  {
    SumOfDebits(s.ledger, Where(key, false, Debits, None));
  }

  /** What is shown as used is the approved days plus what the jobs expired; what is shown as accrued is
      what the jobs credited. */
  lemma UsedAndAccrued(s: State, p: Policy, key: Key)
    requires LedgerInv(s)
    ensures var d := Displayed(s.ledger, p, key, s.today);
            && d.used ==
               ApprovedDays(s.requests, key, None) - Sum(RowsOf(s.ledger, None), Where(key, false, Debits, None))
            && d.accrued == Sum(RowsOf(s.ledger, None), Where(key, false, Credits, None))
  {
    var debits, credits := Where(key, false, Debits, None), Where(key, false, Credits, Some(s.today));
    UsedIsNotPositive(s, key);
    forall r | r in s.requests
      ensures RowsOf(s.ledger, Some(r.id)) == OwnedRows(r) && r.totalDays >= 0
    {
      assert OwnsItsRows(s.ledger, r);
    }
    forall row | row in s.ledger && row.referenceId.Some?
      ensures RequestIndex(s.requests, row.referenceId.value).Some?
    {
      assert RowAccounted(s.requests, row, s.today);
    }
    LedgerSplits(s.requests, s.ledger, debits);
    LedgerSplits(s.requests, s.ledger, credits);
    OwnedDebits(s.requests, key, s.today);
    RowsOfMembers(s.ledger, None);
    forall row | row in RowsOf(s.ledger, None)
      ensures row.effectiveDate <= s.today
    {
      assert RowAccounted(s.requests, row, s.today);
    }
    SumAgree(RowsOf(s.ledger, None), credits, Where(key, false, Credits, None));
  }

  lemma {:induction false} OwnedDebits(requests: seq<LeaveRequest>, key: Key, today: int)
    requires forall r <- requests :: r.totalDays >= 0
    ensures OwnedSum(requests, Where(key, false, Debits, None)) == -ApprovedDays(requests, key, None)
    ensures OwnedSum(requests, Where(key, false, Credits, Some(today))) == 0
  {
    if requests != [] {
      OwnedDebits(requests[..|requests| - 1], key, today);
      var row := Reservation(requests[|requests| - 1]);
      assert requests[|requests| - 1] in requests;
      SumOfOne(row, Where(key, false, Debits, None));
      SumOfOne(row.(isPending := false), Where(key, false, Debits, None));
      SumOfOne(row, Where(key, false, Credits, Some(today)));
      SumOfOne(row.(isPending := false), Where(key, false, Credits, Some(today)));
    }
  }
}
