/** What keeps a settled balance from going negative over whole runs, and what does not. */
module LeaveOverdraft {
  import opened LeaveTypes
  import opened Ledger
  import opened ApprovalRouting
  import opened LeaveHandlers
  import opened LeaveRuns
  import opened LeaveInvariants
  import opened LeaveSafety
  import Jobs = AccrualJobs
  import Laws = AccrualLaws

  // ---- When a run keeps a balance ----

  function SettledBalance(s: State, key: Key): int {
    Sum(s.ledger, Settled(key))
  }

  /** Approved leave that has not started: already out of the settled balance, not yet out of the usable one. */
  function ToCome(s: State, key: Key): int {
    ApprovedDays(s.requests, key, None) - ApprovedDays(s.requests, key, Some(s.today))
  }

  /** A final approval finds its days in the settled balance; a carry-over expires no approved leave that is still to
      come. Nothing else can take a balance below zero. */
  predicate Covered(s: State, step: Step, key: Key) {
    match step
    case Act(c) =>
      c.HrApproveCommand? && Handle(s, c).result.Ok? ==>
        var i := RequestIndex(s.requests, c.id);
        i.Some? && (OfKey(s.requests[i.value], key) ==> s.requests[i.value].totalDays <= SettledBalance(s, key))
    case RunJob(job) =>
      job == Jobs.CarryOver ==>
        var p := Jobs.CoveringPolicy(Jobs.Fetch(job, s.policies), s.users, key);
        p.Some? ==> !Laws.ExpiresCommitted(p.value, UsableBalance(s.ledger, key, s.today), ToCome(s, key))
    case UpdateUser(_, _, _, _) => true
    case PassDays(_) => true
  }

  lemma JobMovesSettled(s: State, job: Jobs.Job, key: Key)
    requires LedgerInv(s) && SchemaInv(s)
    ensures SettledBalance(Next(s, RunJob(job)), key) ==
            SettledBalance(s, key) + Jobs.JobDelta(job, s.policies, s.users, key, UsableBalance(s.ledger, key, s.today))
  {
    Jobs.JobChangesBalance(job, s.policies, s.users, s.ledger, s.today, key);
    SumConcat(s.ledger, Jobs.JobRows(job, s.policies, s.users, s.ledger, s.today), Settled(key));
  }

  lemma SettledIsUsableLessToCome(s: State, key: Key)
    requires LedgerInv(s)
    ensures SettledBalance(s, key) == UsableBalance(s.ledger, key, s.today) - ToCome(s, key)
  {
    Conservation(s, key);
  }

  lemma JobKeepsBalance(s: State, job: Jobs.Job, key: Key)
    requires LedgerInv(s) && SchemaInv(s) && SettledBalance(s, key) >= 0
    ensures SettledBalance(Next(s, RunJob(job)), key) >= 0 <==> Covered(s, RunJob(job), key)
  {
    JobMovesSettled(s, job, key);
    SettledIsUsableLessToCome(s, key);
    var usable := UsableBalance(s.ledger, key, s.today);
    var p := Jobs.CoveringPolicy(Jobs.Fetch(job, s.policies), s.users, key);
    hide LedgerInv, SchemaInv, SettledBalance, ToCome, UsableBalance;
    if p.Some? {
      match job
      case Accrual(frequency) => Laws.AccrualDelta(frequency, p.value, usable);
      case DevSeed => Laws.SeedDelta(p.value, usable);
      case CarryOver => Laws.CarryOverCovers(p.value, usable, ToCome(s, key));
    }
  }

  lemma ActKeepsBalance(s: State, c: Command, key: Key)
    requires LedgerInv(s) && SettledBalance(s, key) >= 0
    ensures SettledBalance(Handle(s, c).state, key) >= 0 <==> Covered(s, Act(c), key)
  {
    if Handle(s, c).result.Err? {
      FailureChangesNothing(s, c);
    } else if c.SubmitCommand? {
      SubmitEffect(s, c);
      SumAppend(s.ledger, Reservation(Handle(s, c).result.value), Settled(key));
    } else {
      var i := ActionEffect(s, c);
      ActionMovesBalance(s, c, i, key);
      hide Handle, LedgerInv;
    }
  }

  lemma StepKeepsBalance(s: State, step: Step, key: Key)
    requires LedgerInv(s) && SchemaInv(s) && SettledBalance(s, key) >= 0
    ensures SettledBalance(Next(s, step), key) >= 0 <==> Covered(s, step, key)
  {
    match step
    case Act(c) => ActKeepsBalance(s, c, key);
    case RunJob(job) => JobKeepsBalance(s, job, key);
    case UpdateUser(_, _, _, _) =>
    case PassDays(_) =>
  }

  predicate AllCovered(s: State, steps: seq<Step>, key: Key) {
    forall k :: 0 <= k < |steps| ==> Covered(Run(s, steps[..k]), steps[k], key)
  }

  predicate NeverNegative(s: State, steps: seq<Step>, key: Key) {
    forall k :: 0 <= k <= |steps| ==> SettledBalance(Run(s, steps[..k]), key) >= 0
  }

  lemma NeverNegativeOneMore(s: State, steps: seq<Step>, key: Key)
    requires steps != []
    ensures NeverNegative(s, steps, key) <==>
            NeverNegative(s, steps[..|steps| - 1], key) && SettledBalance(Run(s, steps), key) >= 0
  {
    hide SettledBalance, Run;
    PrefixesOneMore(steps);
  }

  lemma CoveredOneMore(s: State, steps: seq<Step>, key: Key)
    requires steps != []
    ensures AllCovered(s, steps, key) <==>
            && AllCovered(s, steps[..|steps| - 1], key)
            && Covered(Run(s, steps[..|steps| - 1]), steps[|steps| - 1], key)
  {
    hide Covered, Run;
    PrefixesOneMore(steps);
  }

  /** Over every run, a settled balance that starts at zero or above is never negative if and only if every final
      approval found its days covered and no carry-over expired approved leave still to come. */
  lemma {:induction false} NeverNegativeIff(s: State, steps: seq<Step>, key: Key)
    requires LedgerInv(s) && SchemaInv(s) && SettledBalance(s, key) >= 0
    ensures NeverNegative(s, steps, key) <==> AllCovered(s, steps, key)
  {
    hide LedgerInv, SchemaInv, Covered, SettledBalance, Next;
    if steps == [] {
      assert Run(s, steps) == s;
    } else {
      var init, before := steps[..|steps| - 1], Run(s, steps[..|steps| - 1]);
      NeverNegativeIff(s, init, key);
      RunsKeepLedger(s, init);
      RunsKeepSchema(s, init);
      NeverNegativeOneMore(s, steps, key);
      CoveredOneMore(s, steps, key);
      assert NeverNegative(s, init, key) ==> SettledBalance(before, key) >= 0 by { assert init[..|init|] == init; }
      hide NeverNegative, AllCovered;
      if SettledBalance(before, key) >= 0 {
        StepKeepsBalance(before, steps[|steps| - 1], key);
      }
    }
  }

  /** Without a carry-over in the run, the final approvals alone decide. */
  lemma NeverNegativeWithoutCarryOver(s: State, steps: seq<Step>, key: Key)
    requires LedgerInv(s) && SchemaInv(s) && SettledBalance(s, key) >= 0 && RunJob(Jobs.CarryOver) !in steps
    ensures NeverNegative(s, steps, key) <==>
            forall k :: 0 <= k < |steps| && steps[k].Act? ==> Covered(Run(s, steps[..k]), steps[k], key)
  {
    NeverNegativeIff(s, steps, key);
    hide Covered, LedgerInv, SchemaInv, NeverNegative, Run;
    forall k | 0 <= k < |steps| && !steps[k].Act?
      ensures Covered(Run(s, steps[..k]), steps[k], key)
    {
      OnlyCarryOverOwes(Run(s, steps[..k]), steps[k], key);
    }
  }

  lemma OnlyCarryOverOwes(s: State, step: Step, key: Key)
    requires !step.Act? && step != RunJob(Jobs.CarryOver)
    ensures Covered(s, step, key)
  {
  }

  /** A carry-over alone can do it, with every approval covered: under None it expires all that is usable, approved
      leave to come included, and leaves the balance at minus that leave. */
  lemma ExpiryOwesLeaveToCome(s: State, key: Key)
    requires LedgerInv(s) && SchemaInv(s) && UsableBalance(s.ledger, key, s.today) > 0
    requires var p := Jobs.CoveringPolicy(Jobs.Fetch(Jobs.CarryOver, s.policies), s.users, key);
             p.Some? && p.value.carryOverPolicy == NoCarryOver
    ensures SettledBalance(Next(s, RunJob(Jobs.CarryOver)), key) == -ToCome(s, key)
  {
    var p := Jobs.CoveringPolicy(Jobs.Fetch(Jobs.CarryOver, s.policies), s.users, key);
    JobMovesSettled(s, Jobs.CarryOver, key);
    SettledIsUsableLessToCome(s, key);
    Laws.CarryOverDelta(p.value, UsableBalance(s.ledger, key, s.today));
  }

  // ---- What a submission would have to check ----

  function KeyOfSubmission(c: Command): Key
    requires c.SubmitCommand?
  {
    Key(c.tenantId, c.userId, c.dto.policyId)
  }

  /** The days that are settled and not reserved: what a reservation would leave to the next one. */
  function FreeBalance(s: State, key: Key): int {
    Sum(s.ledger, Settled(key)) + Sum(s.ledger, Pending(key))
  }

  /** A submission finds its days free; a carry-over expires no leave that is approved or asked for. */
  predicate Afforded(s: State, step: Step, key: Key) {
    match step
    case Act(c) =>
      c.SubmitCommand? && Handle(s, c).result.Ok? && KeyOfSubmission(c) == key ==>
        TotalDays(c.dto) <= FreeBalance(s, key)
    case RunJob(job) =>
      job == Jobs.CarryOver ==>
        var p := Jobs.CoveringPolicy(Jobs.Fetch(job, s.policies), s.users, key);
        p.Some? ==> !Laws.ExpiresCommitted(p.value, UsableBalance(s.ledger, key, s.today),
                                           ToCome(s, key) + InFlightDays(s.requests, key))
    case UpdateUser(_, _, _, _) => true
    case PassDays(_) => true
  }

  lemma FreeIsUsableLessCommitted(s: State, key: Key)
    requires LedgerInv(s)
    ensures FreeBalance(s, key) ==
            UsableBalance(s.ledger, key, s.today) - (ToCome(s, key) + InFlightDays(s.requests, key))
  {
    Conservation(s, key);
  }

  lemma JobMovesFree(s: State, job: Jobs.Job, key: Key)
    requires LedgerInv(s) && SchemaInv(s)
    ensures FreeBalance(Next(s, RunJob(job)), key) ==
            FreeBalance(s, key) + Jobs.JobDelta(job, s.policies, s.users, key, UsableBalance(s.ledger, key, s.today))
  {
    var rows := Jobs.JobRows(job, s.policies, s.users, s.ledger, s.today);
    JobMovesSettled(s, job, key);
    Jobs.JobRowsShape(job, s.policies, s.users, s.ledger, s.today);
    NoPendingJobRows(rows, key);
    SumConcat(s.ledger, rows, Pending(key));
  }

  lemma JobKeepsFree(s: State, job: Jobs.Job, key: Key)
    requires LedgerInv(s) && SchemaInv(s) && FreeBalance(s, key) >= 0
    ensures FreeBalance(Next(s, RunJob(job)), key) >= 0 <==> Afforded(s, RunJob(job), key)
  {
    JobMovesFree(s, job, key);
    FreeIsUsableLessCommitted(s, key);
    var usable, committed := UsableBalance(s.ledger, key, s.today), ToCome(s, key) + InFlightDays(s.requests, key);
    var p := Jobs.CoveringPolicy(Jobs.Fetch(job, s.policies), s.users, key);
    hide LedgerInv, SchemaInv, FreeBalance, ToCome, InFlightDays, UsableBalance;
    if p.Some? {
      match job
      case Accrual(frequency) => Laws.AccrualDelta(frequency, p.value, usable);
      case DevSeed => Laws.SeedDelta(p.value, usable);
      case CarryOver => Laws.CarryOverCovers(p.value, usable, committed);
    }
  }

  lemma SubmitKeepsFree(s: State, c: Command, key: Key)
    requires c.SubmitCommand? && Handle(s, c).result.Ok? && FreeBalance(s, key) >= 0
    ensures FreeBalance(Handle(s, c).state, key) >= 0 <==> Afforded(s, Act(c), key)
  {
    SubmitEffect(s, c);
    var r := Handle(s, c).result.value;
    hide Handle, Sum;
    SumAppend(s.ledger, Reservation(r), Settled(key));
    SumAppend(s.ledger, Reservation(r), Pending(key));
  }

  lemma ActKeepsFree(s: State, c: Command, key: Key)
    requires LedgerInv(s) && FreeBalance(s, key) >= 0
    ensures FreeBalance(Handle(s, c).state, key) >= 0 <==> Afforded(s, Act(c), key)
  {
    if Handle(s, c).result.Err? {
      FailureChangesNothing(s, c);
    } else if c.SubmitCommand? {
      SubmitKeepsFree(s, c, key);
    } else {
      var i := ActionEffect(s, c);
      ActionMovesBalance(s, c, i, key);
      assert OwnsItsRows(s.ledger, s.requests[i]) by { assert s.requests[i] in s.requests; }
      hide Handle, LedgerInv;
    }
  }

  lemma StepKeepsFree(s: State, step: Step, key: Key)
    requires LedgerInv(s) && SchemaInv(s) && FreeBalance(s, key) >= 0
    ensures FreeBalance(Next(s, step), key) >= 0 <==> Afforded(s, step, key)
  {
    match step
    case Act(c) => ActKeepsFree(s, c, key);
    case RunJob(job) => JobKeepsFree(s, job, key);
    case UpdateUser(_, _, _, _) =>
    case PassDays(_) =>
  }

  predicate AllAfforded(s: State, steps: seq<Step>, key: Key) {
    forall k :: 0 <= k < |steps| ==> Afforded(Run(s, steps[..k]), steps[k], key)
  }

  predicate NeverOverbooked(s: State, steps: seq<Step>, key: Key) {
    forall k :: 0 <= k <= |steps| ==> FreeBalance(Run(s, steps[..k]), key) >= 0
  }

  lemma NeverOverbookedOneMore(s: State, steps: seq<Step>, key: Key)
    requires steps != []
    ensures NeverOverbooked(s, steps, key) <==>
            NeverOverbooked(s, steps[..|steps| - 1], key) && FreeBalance(Run(s, steps), key) >= 0
  {
    hide FreeBalance, Run;
    PrefixesOneMore(steps);
  }

  lemma AffordedOneMore(s: State, steps: seq<Step>, key: Key)
    requires steps != []
    ensures AllAfforded(s, steps, key) <==>
            && AllAfforded(s, steps[..|steps| - 1], key)
            && Afforded(Run(s, steps[..|steps| - 1]), steps[|steps| - 1], key)
  {
    hide Afforded, Run;
    PrefixesOneMore(steps);
  }

  /** The check that `reserve` would need: over every run, no more is ever settled and reserved than there is, if and
      only if every submission finds its days in the settled balance less the reserved days, and no carry-over expires
      leave that is approved or asked for. */
  lemma {:induction false} NeverOverbookedIff(s: State, steps: seq<Step>, key: Key)
    requires LedgerInv(s) && SchemaInv(s) && FreeBalance(s, key) >= 0
    ensures NeverOverbooked(s, steps, key) <==> AllAfforded(s, steps, key)
  {
    hide LedgerInv, SchemaInv, Afforded, FreeBalance, Next;
    if steps == [] {
      assert Run(s, steps) == s;
    } else {
      var init, before := steps[..|steps| - 1], Run(s, steps[..|steps| - 1]);
      NeverOverbookedIff(s, init, key);
      RunsKeepLedger(s, init);
      RunsKeepSchema(s, init);
      NeverOverbookedOneMore(s, steps, key);
      AffordedOneMore(s, steps, key);
      assert NeverOverbooked(s, init, key) ==> FreeBalance(before, key) >= 0 by { assert init[..|init|] == init; }
      hide NeverOverbooked, AllAfforded;
      if FreeBalance(before, key) >= 0 {
        StepKeepsFree(before, steps[|steps| - 1], key);
      }
    }
  }

  lemma PendingIsNotPositive(s: State, key: Key)
    requires LedgerInv(s)
    ensures Sum(s.ledger, Pending(key)) <= 0
  {
    LateRowsAreDebits(s);
    hide LedgerInv;
    SumOfDebits(s.ledger, Pending(key));
  }

  /** And then no settled balance is ever negative either: with that check on submission, every final approval would
      find its days. */
  lemma AffordedIsCovered(s: State, steps: seq<Step>, key: Key)
    requires LedgerInv(s) && SchemaInv(s) && FreeBalance(s, key) >= 0 && AllAfforded(s, steps, key)
    ensures NeverNegative(s, steps, key) && AllCovered(s, steps, key)
  {
    NeverOverbookedIff(s, steps, key);
    hide LedgerInv, SchemaInv, AllAfforded, AllCovered, Run;
    forall k | 0 <= k <= |steps|
      ensures SettledBalance(Run(s, steps[..k]), key) >= 0
    {
      RunsKeepLedger(s, steps[..k]);
      PendingIsNotPositive(Run(s, steps[..k]), key);
    }
    PendingIsNotPositive(s, key);
    NeverNegativeIff(s, steps, key);
  }
}
