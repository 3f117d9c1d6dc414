/** What holds in every reachable state of the leave system. */
module LeaveInvariants {
  import opened LeaveTypes
  import opened Ledger
  import opened ApprovalRouting
  import opened LeaveHandlers
  import opened LeaveRuns
  import Jobs = AccrualJobs

  // ---- Each request and its ledger rows ----

  /** Exactly the ledger rows a request owns: its reservation while it is in flight, the same row settled
      once it is approved, none when it was rejected or cancelled. */
  function OwnedRows(r: LeaveRequest): seq<LedgerRow> {
    if IsCancellable(r.status) then [Reservation(r)]
    else if r.status == APPROVED then [Reservation(r).(isPending := false)]
    else []
  }

  predicate UniqueRequests(requests: seq<LeaveRequest>) {
    forall i, j :: 0 <= i < j < |requests| ==> requests[i].id != requests[j].id
  }

  predicate OwnsItsRows(ledger: seq<LedgerRow>, r: LeaveRequest) {
    RowsOf(ledger, Some(r.id)) == OwnedRows(r) && r.totalDays >= 0
  }

  /** A row refers to a request, or is a settled row of a job that has run already. */
  predicate RowAccounted(requests: seq<LeaveRequest>, row: LedgerRow, today: int) {
    if row.referenceId.Some? then RequestIndex(requests, row.referenceId.value).Some?
    else !row.isPending && row.effectiveDate <= today
  }

  predicate LedgerInv(s: State) {
    && UniqueRequests(s.requests)
    && (forall r <- s.requests :: OwnsItsRows(s.ledger, r))
    && (forall row <- s.ledger :: RowAccounted(s.requests, row, s.today))
  }

  lemma OwnedAfter(s: State, c: Command, i: nat, r: LeaveRequest)
    requires !c.SubmitCommand? && i < |s.requests| && s.requests[i].id == c.id
    requires SameRequest(s.requests[i], r) && MayMove(c, s.requests[i].status, r.status)
    requires OwnsItsRows(s.ledger, s.requests[i])
    ensures OwnsItsRows(LedgerAfter(s.ledger, c), r)
  {
    hide SettlePending, DropPending, RowsOf;
    ReservationSettledOrDropped(s.requests[i]);
    if c.HrApproveCommand? {
      RowsOfSettled(s.ledger, c.id, Some(c.id));
    } else if c.RejectCommand? || c.CancelCommand? {
      RowsOfDropped(s.ledger, c.id, Some(c.id));
    }
  }

  lemma ReservationSettledOrDropped(r: LeaveRequest)
    ensures SettlePending([Reservation(r)], r.id) == [Reservation(r).(isPending := false)]
    ensures DropPending([Reservation(r)], r.id) == []
  {
    SettleAppend([], Reservation(r), r.id);
    DropAppend([], Reservation(r), r.id);
    assert [] + [Reservation(r)] == [Reservation(r)];
  }

  lemma OthersUntouched(s: State, c: Command, r: LeaveRequest)
    requires !c.SubmitCommand? && r.id != c.id && OwnsItsRows(s.ledger, r)
    ensures OwnsItsRows(LedgerAfter(s.ledger, c), r)
  {
    RowsOfSettled(s.ledger, c.id, Some(r.id));
    RowsOfDropped(s.ledger, c.id, Some(r.id));
  }

  /** Settling and dropping leave the rows of the jobs alone and make no row refer to a new request. */
  lemma LedgerAfterRows(s: State, c: Command)
    requires !c.SubmitCommand?
    ensures RowsOf(LedgerAfter(s.ledger, c), None) == RowsOf(s.ledger, None)
    ensures forall row <- LedgerAfter(s.ledger, c) ::
              row in s.ledger || (row.(isPending := true) in s.ledger && row.referenceId == Some(c.id))
  {
    RowsOfSettled(s.ledger, c.id, None);
    RowsOfDropped(s.ledger, c.id, None);
    SettlePendingRows(s.ledger, c.id);
    DropPendingRows(s.ledger, c.id);
    forall row | row in LedgerAfter(s.ledger, c)
      ensures row in s.ledger || (row.(isPending := true) in s.ledger && row.referenceId == Some(c.id))
    {
      if c.HrApproveCommand? {
        var k :| 0 <= k < |LedgerAfter(s.ledger, c)| && LedgerAfter(s.ledger, c)[k] == row;
        assert s.ledger[k] in s.ledger;
      }
    }
  }

  lemma ActionKeepsLedger(s: State, c: Command)
    requires LedgerInv(s) && !c.SubmitCommand? && Handle(s, c).result.Ok?
    ensures LedgerInv(Handle(s, c).state)
  {
    var i := ActionEffect(s, c);
    var t, r := Handle(s, c).state, Handle(s, c).result.value;
    hide Handle, LedgerAfter, OwnsItsRows, MayMove;
    RewritingKeepsOwned(s, c, i, r);
    RewritingKeepsAccounts(s, c, i, r);
  }

  lemma RewritingKeepsOwned(s: State, c: Command, i: nat, r: LeaveRequest)
    requires LedgerInv(s) && !c.SubmitCommand? && i < |s.requests| && s.requests[i].id == c.id
    requires SameRequest(s.requests[i], r) && MayMove(c, s.requests[i].status, r.status)
    ensures forall q <- s.requests[i := r] :: OwnsItsRows(LedgerAfter(s.ledger, c), q)
  {
    hide OwnsItsRows, LedgerAfter, MayMove, RowAccounted;
    assert s.requests[i] in s.requests;
    OwnedAfter(s, c, i, r);
    var requests := s.requests[i := r];
    forall q | q in requests
      ensures OwnsItsRows(LedgerAfter(s.ledger, c), q)
    {
      if q != r {
        var j :| 0 <= j < |requests| && requests[j] == q;
        assert j != i && s.requests[j] == q && q in s.requests;
        OthersUntouched(s, c, q);
      }
    }
  }

  lemma RewritingKeepsAccounts(s: State, c: Command, i: nat, r: LeaveRequest)
    requires LedgerInv(s) && !c.SubmitCommand? && i < |s.requests| && r.id == s.requests[i].id
    ensures forall row <- LedgerAfter(s.ledger, c) :: RowAccounted(s.requests[i := r], row, s.today)
  {
    LedgerAfterRows(s, c);
    hide OwnsItsRows, LedgerAfter, RequestIndex;
    forall row | row in LedgerAfter(s.ledger, c)
      ensures RowAccounted(s.requests[i := r], row, s.today)
    {
      var before := if row in s.ledger then row else row.(isPending := true);
      assert RowAccounted(s.requests, before, s.today);
      if row.referenceId.Some? {
        RequestIndexSame(s.requests, s.requests[i := r], row.referenceId.value);
      }
    }
  }

  lemma SubmitKeepsLedger(s: State, c: Command)
    requires LedgerInv(s) && c.SubmitCommand? && Handle(s, c).result.Ok?
    ensures LedgerInv(Handle(s, c).state)
  {
    SubmitEffect(s, c);
    AppendKeepsLedger(s, Handle(s, c).result.value);
  }

  lemma AppendKeepsLedger(s: State, r: LeaveRequest)
    requires LedgerInv(s) && RequestIndex(s.requests, r.id).None? && r.totalDays >= 0 && IsCancellable(r.status)
    ensures LedgerInv(s.(requests := s.requests + [r], ledger := s.ledger + [Reservation(r)]))
  {
    var ledger := s.ledger + [Reservation(r)];
    AppendOwnsRows(s, r);
    hide OwnsItsRows, RequestIndex;
    forall row | row in ledger
      ensures RowAccounted(s.requests + [r], row, s.today)
    {
      if row.referenceId.Some? {
        RequestIndexAppend(s.requests, r, row.referenceId.value);
      }
    }
  }

  lemma AppendOwnsRows(s: State, r: LeaveRequest)
    requires LedgerInv(s) && RequestIndex(s.requests, r.id).None? && r.totalDays >= 0 && IsCancellable(r.status)
    ensures forall q <- s.requests + [r] :: OwnsItsRows(s.ledger + [Reservation(r)], q)
  {
    hide UniqueRequests;
    forall row | row in s.ledger
      ensures row.referenceId != Some(r.id)
    {
      assert RowAccounted(s.requests, row, s.today);
    }
    RowsOfNone(s.ledger, Some(r.id));
    hide RowsOf;
    forall q | q in s.requests + [r]
      ensures OwnsItsRows(s.ledger + [Reservation(r)], q)
    {
      RowsOfAppend(s.ledger, Reservation(r), Some(q.id));
      if q in s.requests {
        assert OwnsItsRows(s.ledger, q);
        var j :| 0 <= j < |s.requests| && s.requests[j] == q;
      }
    }
  }

  lemma JobKeepsLedger(s: State, job: Jobs.Job)
    requires LedgerInv(s)
    ensures LedgerInv(Next(s, RunJob(job)))
  {
    var rows := Jobs.JobRows(job, s.policies, s.users, s.ledger, s.today);
    Jobs.JobRowsShape(job, s.policies, s.users, s.ledger, s.today);
    forall r | r in s.requests
      ensures OwnsItsRows(s.ledger + rows, r)
    {
      RowsOfConcat(s.ledger, rows, Some(r.id));
      RowsOfNone(rows, Some(r.id));
    }
  }

  lemma StepKeepsLedger(s: State, step: Step)
    requires LedgerInv(s)
    ensures LedgerInv(Next(s, step))
  {
    match step
    case Act(c) =>
      if Handle(s, c).result.Err? {
        FailureChangesNothing(s, c);
      } else if c.SubmitCommand? {
        SubmitKeepsLedger(s, c);
      } else {
        ActionKeepsLedger(s, c);
      }
    case UpdateUser(_, _, _, _) =>
    case RunJob(job) => JobKeepsLedger(s, job);
    case PassDays(_) =>
  }

  /** In every reachable state each request owns exactly the rows that its status calls for. */
  lemma {:induction false} RunsKeepLedger(s: State, steps: seq<Step>)
    requires LedgerInv(s)
    ensures LedgerInv(Run(s, steps))
  {
    if steps != [] {
      RunsKeepLedger(s, steps[..|steps| - 1]);
      StepKeepsLedger(Run(s, steps[..|steps| - 1]), steps[|steps| - 1]);
    }
  }

  /** So a request has a pending row exactly while it can be cancelled, which is exactly while the
      frontend shows a current stage for it. */
  lemma PendingRowIffInFlight(s: State, r: LeaveRequest)
    requires LedgerInv(s) && r in s.requests
    ensures (exists row <- s.ledger :: row.referenceId == Some(r.id) && row.isPending) <==> IsCancellable(r.status)
    ensures IsCancellable(r.status) <==> DeriveCurrentStage(r.status).Some?
  {
    RowsOfMembers(s.ledger, Some(r.id));
    assert OwnsItsRows(s.ledger, r);
    if IsCancellable(r.status) {
      assert Reservation(r) in RowsOf(s.ledger, Some(r.id));
    } else {
      forall row | row in s.ledger && row.referenceId == Some(r.id)
        ensures !row.isPending
      {
        assert row in RowsOf(s.ledger, Some(r.id));
      }
    }
  }

  // ---- Conservation ----

  /** The part of a sum that a table of requests accounts for. */
  function OwnedSum(requests: seq<LeaveRequest>, w: Where): int {
    if requests == [] then 0
    else OwnedSum(requests[..|requests| - 1], w) + Sum(OwnedRows(requests[|requests| - 1]), w)
  }

  /** Every aggregate of the ledger splits into the rows of the jobs and the rows the requests own. */
  lemma {:induction false} LedgerSplits(requests: seq<LeaveRequest>, ledger: seq<LedgerRow>, w: Where)
    requires UniqueRequests(requests)
    requires forall r <- requests :: RowsOf(ledger, Some(r.id)) == OwnedRows(r)
    requires forall row <- ledger :: row.referenceId.Some? ==> RequestIndex(requests, row.referenceId.value).Some?
    ensures Sum(ledger, w) == Sum(RowsOf(ledger, None), w) + OwnedSum(requests, w)
    decreases |requests|
  {
    if requests == [] {
      RowsOfAll(ledger, None);
    } else {
      var init, last := requests[..|requests| - 1], requests[|requests| - 1];
      assert requests == init + [last];
      var rest := RowsNotOf(ledger, Some(last.id));
      RowsOfMembers(ledger, Some(last.id));
      forall r | r in init
        ensures RowsOf(rest, Some(r.id)) == OwnedRows(r)
      {
        assert r in requests && r.id != last.id;
        RowsOfRest(ledger, Some(last.id), Some(r.id));
      }
      forall row | row in rest && row.referenceId.Some?
        ensures RequestIndex(init, row.referenceId.value).Some?
      {
        RequestIndexAppend(init, last, row.referenceId.value);
      }
      LedgerSplits(init, rest, w);
      RowsOfRest(ledger, Some(last.id), None);
      SumByReference(ledger, Some(last.id), w);
      assert last in requests;
    }
  }

  predicate OfKey(r: LeaveRequest, key: Key) {
    Key(r.tenantId, r.userId, r.policyId) == key
  }

  /** What one request contributes to the approved days of a key, and to the days in flight. */
  function ApprovedPart(r: LeaveRequest, key: Key, until: Option<int>): int {
    if OfKey(r, key) && r.status == APPROVED && (until.Some? ==> r.startDate <= until.value) then r.totalDays else 0
  }

  function InFlightPart(r: LeaveRequest, key: Key): int {
    if OfKey(r, key) && IsCancellable(r.status) then r.totalDays else 0
  }

  /** The days of the approved requests of a key, from those that start by the given day if one is given. */
  function ApprovedDays(requests: seq<LeaveRequest>, key: Key, until: Option<int>): int {
    if requests == [] then 0
    else
      ApprovedDays(requests[..|requests| - 1], key, until) + ApprovedPart(requests[|requests| - 1], key, until)
  }

  /** The days of the requests of a key that still await a decision. */
  function InFlightDays(requests: seq<LeaveRequest>, key: Key): int {
    if requests == [] then 0
    else
      InFlightDays(requests[..|requests| - 1], key) + InFlightPart(requests[|requests| - 1], key)
  }

  lemma SumOfOne(row: LedgerRow, w: Where)
    ensures Sum([row], w) == if Matches(w, row) then row.amount else 0
  {
    assert [row][..0] == [];
  }

  lemma {:induction false} OwnedSums(requests: seq<LeaveRequest>, key: Key, until: Option<int>)
    ensures OwnedSum(requests, Where(key, false, AnySign, until)) == -ApprovedDays(requests, key, until)
    ensures OwnedSum(requests, Pending(key)) == -InFlightDays(requests, key)
  {
    if requests != [] {
      OwnedSums(requests[..|requests| - 1], key, until);
      var row := Reservation(requests[|requests| - 1]);
      SumOfOne(row, Where(key, false, AnySign, until));
      SumOfOne(row.(isPending := false), Where(key, false, AnySign, until));
      SumOfOne(row, Pending(key));
      SumOfOne(row.(isPending := false), Pending(key));
    }
  }

  lemma {:induction false} NoPendingJobRows(rows: seq<LedgerRow>, key: Key)
    requires forall row <- rows :: !row.isPending
    ensures Sum(rows, Pending(key)) == 0
  {
    if rows != [] {
      NoPendingJobRows(rows[..|rows| - 1], key);
    }
  }

  /** Conservation in every reachable state, per tenant, employee and policy: the settled balance is what
      the jobs credited less the days of the approved requests, and the pending balance is exactly the days
      still in flight. The same holds of the balance in effect, counting leave that has started. */
  lemma Conservation(s: State, key: Key)
    requires LedgerInv(s)
    ensures Sum(s.ledger, Settled(key)) ==
            Sum(RowsOf(s.ledger, None), Settled(key)) - ApprovedDays(s.requests, key, None)
    ensures Sum(s.ledger, Pending(key)) == -InFlightDays(s.requests, key)
    ensures UsableBalance(s.ledger, key, s.today) ==
            Sum(RowsOf(s.ledger, None), Settled(key)) - ApprovedDays(s.requests, key, Some(s.today))
  {
    forall r | r in s.requests
      ensures RowsOf(s.ledger, Some(r.id)) == OwnedRows(r)
    {
      assert OwnsItsRows(s.ledger, r);
    }
    forall row | row in s.ledger && row.referenceId.Some?
      ensures RequestIndex(s.requests, row.referenceId.value).Some?
    {
      assert RowAccounted(s.requests, row, s.today);
    }
    LedgerSplits(s.requests, s.ledger, Settled(key));
    LedgerSplits(s.requests, s.ledger, Pending(key));
    LedgerSplits(s.requests, s.ledger, Effective(key, s.today));
    OwnedSums(s.requests, key, None);
    OwnedSums(s.requests, key, Some(s.today));
    JobRowsInEffect(s, key);
  }

  lemma JobRowsInEffect(s: State, key: Key)
    requires LedgerInv(s)
    ensures Sum(RowsOf(s.ledger, None), Pending(key)) == 0
    ensures Sum(RowsOf(s.ledger, None), Effective(key, s.today)) == Sum(RowsOf(s.ledger, None), Settled(key))
  {
    var jobRows := RowsOf(s.ledger, None);
    RowsOfMembers(s.ledger, None);
    forall row | row in jobRows
      ensures !row.isPending && row.effectiveDate <= s.today
    {
      assert RowAccounted(s.requests, row, s.today);
    }
    NoPendingJobRows(jobRows, key);
    SumAgree(jobRows, Effective(key, s.today), Settled(key));
  }

  // ---- What each action moves ----

  lemma {:induction false} DaysUpdate(requests: seq<LeaveRequest>, i: nat, r: LeaveRequest, key: Key,
      until: Option<int>)
    requires i < |requests|
    ensures ApprovedDays(requests[i := r], key, until) ==
            ApprovedDays(requests, key, until) - ApprovedPart(requests[i], key, until) + ApprovedPart(r, key, until)
    ensures InFlightDays(requests[i := r], key) ==
            InFlightDays(requests, key) - InFlightPart(requests[i], key) + InFlightPart(r, key)
  {
    var n := |requests| - 1;
    if i < n {
      DaysUpdate(requests[..n], i, r, key, until);
      assert requests[i := r][..n] == requests[..n][i := r];
    } else {
      assert requests[i := r][..n] == requests[..n];
    }
  }

  /** The effect of every successful action on every balance: a final approval moves the request's days from
      pending to settled, a rejection or cancellation gives the pending days back, a comment or department
      approval moves nothing, and no other balance changes. */
  lemma ActionMovesBalance(s: State, c: Command, i: nat, key: Key)
    requires LedgerInv(s) && !c.SubmitCommand? && Handle(s, c).result.Ok? && RequestIndex(s.requests, c.id) == Some(i)
    ensures var t, q := Handle(s, c).state, s.requests[i];
            var days := if OfKey(q, key) then q.totalDays else 0;
            && Sum(t.ledger, Settled(key)) == Sum(s.ledger, Settled(key)) - (if c.HrApproveCommand? then days else 0)
            && Sum(t.ledger, Pending(key)) ==
               Sum(s.ledger, Pending(key)) +
               (if c.HrApproveCommand? || c.RejectCommand? || c.CancelCommand? then days else 0)
  {
    var j := ActionEffect(s, c);
    var t, r := Handle(s, c).state, Handle(s, c).result.value;
    ActionKeepsLedger(s, c);
    LedgerAfterRows(s, c);
    hide Handle, LedgerInv, LedgerAfter, RowsOf, Sum, ApprovedDays, InFlightDays, UsableBalance;
    Conservation(s, key);
    Conservation(t, key);
    DaysUpdate(s.requests, i, r, key, None);
  }

  /** So a final approval leaves a settled balance that is not negative if and only if the balance still
      covers the days when it is given; the reservation made on submission does not see to that. */
  lemma ApprovalOverdraws(s: State, c: Command, i: nat)
    requires LedgerInv(s) && c.HrApproveCommand? && Handle(s, c).result.Ok? && RequestIndex(s.requests, c.id) == Some(i)
    ensures var q := s.requests[i];
            var key := Key(q.tenantId, q.userId, q.policyId);
            Sum(Handle(s, c).state.ledger, Settled(key)) >= 0 <==> Sum(s.ledger, Settled(key)) >= q.totalDays
  {
    var q := s.requests[i];
    hide Handle;
    ActionMovesBalance(s, c, i, Key(q.tenantId, q.userId, q.policyId));
  }

  // ---- Conservation over runs ----

  /** The schema's unique keys, and the foreign key of the submitter. */
  predicate SchemaInv(s: State) {
    && Jobs.DistinctUsers(s.users) && Jobs.DistinctPolicies(s.policies)
    && forall r <- s.requests :: FindUser(s.users, r.userId).Some?
  }

  lemma StepKeepsSchema(s: State, step: Step)
    requires SchemaInv(s)
    ensures SchemaInv(Next(s, step))
    ensures Next(s, step).policies == s.policies
  {
    match step
    case Act(c) =>
      if Handle(s, c).result.Err? {
        FailureChangesNothing(s, c);
      } else if c.SubmitCommand? {
        SubmitEffect(s, c);
      } else {
        var i := ActionEffect(s, c);
        hide Handle;
        assert s.requests[i] in s.requests;
        forall q | q in Handle(s, c).state.requests
          ensures FindUser(s.users, q.userId).Some?
        {
          if q != Handle(s, c).result.value {
            assert q in s.requests;
          }
        }
      }
    case UpdateUser(id, tenantId, role, departmentId) =>
      forall r | r in s.requests
        ensures FindUser(Next(s, step).users, r.userId).Some?
      {
        UpdatedUsersKeepKeys(s, id, tenantId, role, departmentId, r.userId);
      }
      UpdatedUsersKeepKeys(s, id, tenantId, role, departmentId, id);
    case RunJob(_) =>
    case PassDays(_) =>
  }

  lemma {:induction false} RunsKeepSchema(s: State, steps: seq<Step>)
    requires SchemaInv(s)
    ensures SchemaInv(Run(s, steps))
    ensures Run(s, steps).policies == s.policies
  {
    hide SchemaInv, Next;
    if steps != [] {
      RunsKeepSchema(s, steps[..|steps| - 1]);
      StepKeepsSchema(Run(s, steps[..|steps| - 1]), steps[|steps| - 1]);
    }
  }

  /** With the submitters in place, no command ever meets the database's inconsistency error. */
  lemma NeverInconsistent(s: State, c: Command)
    requires SchemaInv(s)
    ensures Handle(s, c).result != Err(Inconsistent)
  {
    if !c.SubmitCommand? {
      var found := FindRequest(s.requests, c.id, c.tenantId);
      if found.Some? {
        assert s.requests[found.value] in s.requests;
      }
    }
  }

  /** What the jobs of a run have credited to a key in total, net of what they expired. */
  function Credited(s: State, steps: seq<Step>, key: Key): int {
    if steps == [] then 0
    else
      var init, last := steps[..|steps| - 1], steps[|steps| - 1];
      var before := Run(s, init);
      Credited(s, init, key) +
      if last.RunJob? then
        Jobs.JobDelta(last.job, before.policies, before.users, key, UsableBalance(before.ledger, key, before.today))
      else 0
  }

  lemma StepCredits(s: State, step: Step, key: Key)
    requires LedgerInv(s) && SchemaInv(s)
    ensures Sum(RowsOf(Next(s, step).ledger, None), Settled(key)) ==
            Sum(RowsOf(s.ledger, None), Settled(key)) +
            (if step.RunJob?
             then Jobs.JobDelta(step.job, s.policies, s.users, key, UsableBalance(s.ledger, key, s.today))
             else 0)
  {
    match step
    case Act(c) =>
      if Handle(s, c).result.Err? {
        FailureChangesNothing(s, c);
      } else if c.SubmitCommand? {
        SubmitEffect(s, c);
        RowsOfAppend(s.ledger, Reservation(Handle(s, c).result.value), None);
        assert RowsOf(s.ledger, None) + [] == RowsOf(s.ledger, None);
      } else {
        var i := ActionEffect(s, c);
        LedgerAfterRows(s, c);
      }
    case UpdateUser(_, _, _, _) =>
    case RunJob(job) =>
      var rows := Jobs.JobRows(job, s.policies, s.users, s.ledger, s.today);
      Jobs.JobRowsShape(job, s.policies, s.users, s.ledger, s.today);
      RowsOfConcat(s.ledger, rows, None);
      RowsOfAll(rows, None);
      SumConcat(RowsOf(s.ledger, None), rows, Settled(key));
      Jobs.JobChangesBalance(job, s.policies, s.users, s.ledger, s.today, key);
      SumConcat(s.ledger, rows, Settled(key));
    case PassDays(_) =>
  }

  lemma {:induction false} RunCredits(s: State, steps: seq<Step>, key: Key)
    requires LedgerInv(s) && SchemaInv(s)
    ensures Sum(RowsOf(Run(s, steps).ledger, None), Settled(key)) ==
            Sum(RowsOf(s.ledger, None), Settled(key)) + Credited(s, steps, key)
  {
    hide LedgerInv, SchemaInv, Next;
    if steps != [] {
      var init, last := steps[..|steps| - 1], steps[|steps| - 1];
      RunCredits(s, init, key);
      RunsKeepLedger(s, init);
      RunsKeepSchema(s, init);
      StepCredits(Run(s, init), last, key);
    }
  }

  /** Conservation over every run: a settled balance moves by exactly what the jobs credited less the days
      that became approved, and what is pending at the end is the days then in flight, to the hundredth. */
  lemma RunConserves(s: State, steps: seq<Step>, key: Key)
    requires LedgerInv(s) && SchemaInv(s)
    ensures var t := Run(s, steps);
            && Sum(t.ledger, Settled(key)) + ApprovedDays(t.requests, key, None) ==
               Sum(s.ledger, Settled(key)) + ApprovedDays(s.requests, key, None) + Credited(s, steps, key)
            && Sum(t.ledger, Pending(key)) == -InFlightDays(t.requests, key)
  {
    hide LedgerInv, SchemaInv, Next;
    RunCredits(s, steps, key);
    RunsKeepLedger(s, steps);
    Conservation(s, key);
    Conservation(Run(s, steps), key);
  }

  /** From an empty system: what is settled is what the jobs credited less the approved days. */
  lemma RunFromEmpty(s: State, steps: seq<Step>, key: Key)
    requires SchemaInv(s) && s.requests == [] && s.ledger == []
    ensures var t := Run(s, steps);
            && LedgerInv(t)
            && Sum(t.ledger, Settled(key)) == Credited(s, steps, key) - ApprovedDays(t.requests, key, None)
            && UsableBalance(t.ledger, key, t.today) ==
               Credited(s, steps, key) - ApprovedDays(t.requests, key, Some(t.today))
  {
    assert LedgerInv(s);
    RunCredits(s, steps, key);
    RunsKeepLedger(s, steps);
    Conservation(Run(s, steps), key);
  }

  /** Only debits are ever pending or dated in the future. */
  lemma LateRowsAreDebits(s: State)
    requires LedgerInv(s)
    ensures forall row <- s.ledger :: row.isPending || row.effectiveDate > s.today ==> row.amount <= 0
  {
    forall row | row in s.ledger && (row.isPending || row.effectiveDate > s.today)
      ensures row.amount <= 0
    {
      assert RowAccounted(s.requests, row, s.today);
      var id := row.referenceId.value;
      var r := s.requests[RequestIndex(s.requests, id).value];
      assert OwnsItsRows(s.ledger, r);
      RowsOfMembers(s.ledger, Some(id));
      assert row in OwnedRows(r);
    }
  }
}
