# Leave management: a verified model

This project models the parts of a multi-tenant leave-management backend whose correctness is hard to see from
the code, and proves what they are relied on for. `dafny verify dfyconfig.toml` checks all of it.

- **The leave workflow and its ledger.** `LeaveTypes`, `Ledger`, `ApprovalRouting` and `LeaveHandlers` hold the rows,
  the ledger's aggregate and bulk operations, the routing and authorization rules, and each command as a function
  from database to database and reply. `LeaveDatabase` has the handlers themselves, on one object whose tables they
  update in place, each proved to leave the tables its function says. `LeaveRuns` lets commands, user updates,
  scheduled jobs and passing days follow each other in any order; `LeaveInvariants`, `LeaveSafety`, `LeaveTenants`,
  `LeaveOverdraft` and `LeaveOverbooking` prove what holds in every state such a run can reach, and exactly when.
  `LeaveAnswers` says over the tables when each command succeeds and which error it answers with otherwise.
  `LeaveBalances` ties the displayed balances to ledger and requests.
- **The accrual jobs.** `LeaveAccrualScheduler` has the nested loops, `AccrualJobs` what one run does to every balance
  at once, `AccrualLaws` whom a run reaches and the closed forms, caps and fixpoints over many runs.
- **The calendar.** `EcmaDate` is the day arithmetic of ECMAScript dates (ECMA-262, section 21.4.1); `GhanaHolidays`
  proves the Anonymous Gregorian algorithm against the Gregorian computus, for every year.
- **Day walks.** `LeaveDays` and `ConflictDetection` prove loops with prefilters and early exits against counts over
  the whole table, and `ConflictLaws` says what each row adds to those counts.
- **Refresh tokens.** `RefreshTokens` is the rotation protocol, cut at every await, under every interleaving of
  refresh, logout and login and every failure of Redis. `AuthHandlers` has the handlers as methods and proves that a
  call on its own is one of these interleavings. `TokenLifetime` proves that a token lives for seven days, in any run.
- **Birthdays.** `Birthdays` has the query with its year wrap; `BirthdayNotifications` the job that is run again every
  few seconds and must notify once; `BirthdayRaces` cuts the job at its awaits and lets runs overlap.

Amounts are integer hundredths of a day, dates are whole days in UTC, identifiers are strings. The clock and the keys
that the database generates are inputs.

What the proofs found in the code as it stands:

- Carry-over adds the carried days on top of a balance that still holds them. The promised balance comes out only when
  nothing is carried (`CarryOverKeepsPromise`); repeated, Full doubles a balance every year (`CarryOverClosedForm`).
- Reservations are not in the balance that the next reservation checks, so the same days can be booked any number of
  times (`SameDaysManyTimes`), to a balance below zero (`BalanceBelowZero`). A balance stays at zero or above exactly if
  every final approval finds its days and no carry-over expires approved leave (`NeverNegativeIff`); the check that would
  prevent overbooking belongs on submission (`NeverOverbookedIff`). Year-end expiry can also do it alone, as it takes days
  that are approved but not yet in effect (`ExpiryBelowZero`).
- The handlers never compare the actor's tenant with the request's. They keep strangers out of everything but the final
  decision (`StrangerSucceedsExactlyIf`, `StrangerApproves`); that tenants stay apart there rests on the controller,
  which takes user and tenant from one token (`RunsKeepTenants`).
- A team lead promoted to department head can approve their own pending request at the department stage
  (`PromotedSubmitterApproves`); exactly that condition is needed (`OwnDeptDecision`). Final decisions on one's own
  request never succeed, not even for a tenant admin, whose final approver is an HR admin.
- `getEaster` is right exactly from the year 100 on (`GetEasterIsEaster`).
- A birthday on 29 February is found a day late after the wrap into a leap year (`LeapDayIsMissed`), which matters only
  to windows that reach it (`UpcomingIsExact`); the job's window of 7 days never does.
- Overlapping runs of the birthday job tell people twice (`TwoAtOnceTellTwice`), exactly if two runs are past the check
  of the same row at once (`OnceIffNoRace`).

Where the code disagrees with its tests or documentation the model follows the code: a submitting tenant admin starts
at PENDING, not at DEPT_APPROVED; creating a policy with an empty department list resolves it to all departments, but
a stored policy without departments, as an update leaves it, credits nobody; the job named monthly is scheduled every
six months, which does not matter to what one run does.

## Model

| member | source | states |
|---|---|---|
| Ledger.UsableCounts | modules/leave-request/services/leave-balance.service.ts:9-26 | Which rows make up the usable balance: wherever it stands in the table, a row adds its amount exactly if it is the key's, settled and in effect today; pending and future rows never count. |
| LeaveDatabase.Database.Reserve | modules/leave-request/services/leave-balance.service.ts:28-66 | A reservation succeeds exactly if the usable balance reaches the days asked for, and then appends one pending DEDUCTION of minus those days, dated at the start of the leave; otherwise the ledger stays. |
| LeaveDatabase.Database.Confirm | modules/leave-request/services/leave-balance.service.ts:68-76 | Row by row: every row keeps its place, those pending for the request become settled, and no other column of any row changes. |
| LeaveDatabase.Database.Release | modules/leave-request/services/leave-balance.service.ts:78-85 | Row by row: exactly the rows pending for the request vanish, the others stay in their order, and no settled balance of any kind moves. |
| Ledger.SettlePendingRows | modules/leave-request/services/leave-balance.service.ts:68-76 | The bulk update keeps every row in its place and settles exactly the pending rows of that request. |
| Ledger.DropPendingRows | modules/leave-request/services/leave-balance.service.ts:78-85 | The bulk delete removes exactly the pending rows of that request and no other row. |
| Ledger.SettlingLowers | modules/leave-request/services/leave-balance.service.ts:68-76 | Settling reservations can lower a settled balance but never raise one. |
| Ledger.DroppingKeeps | modules/leave-request/services/leave-balance.service.ts:78-85 | Releasing a reservation leaves every settled balance of every key as it was. |
| Ledger.UsableLater | modules/leave-request/services/leave-balance.service.ts:17-24 | As time passes a usable balance can only fall, as long as only debits are dated in the future. |
| LeaveDatabase.Database.Submit | modules/leave-request/cqrs/handlers/submit-leave-request.handler.ts:27-111 | Every rejection, and the transaction: request and reservation are both inserted or neither; reply and whole new database state are those of the submission function. |
| LeaveDatabase.Database.TeamLeadComment | modules/leave-request/cqrs/handlers/team-lead-comment-leave-request.handler.ts:25-79 | Errors in order; on success the one request moves to TEAM_LEAD_COMMENTED with the stamp and one comment is added, and nothing else changes. |
| LeaveDatabase.Database.DeptApprove | modules/leave-request/cqrs/handlers/dept-approve-leave-request.handler.ts:27-76 | Errors in order; on success the one request moves to DEPT_APPROVED with the stamp, and an omitted comment leaves the stored one. |
| LeaveDatabase.Database.HrApprove | modules/leave-request/cqrs/handlers/hr-approve-leave-request.handler.ts:34-92 | Errors in order; on success the request is APPROVED with the stamp of the required role and its reservation is settled in the same transaction. |
| LeaveDatabase.Database.Reject | modules/leave-request/cqrs/handlers/reject-leave-request.handler.ts:40-103 | Errors in order; on success the request is REJECTED with the stamp of the stage, the reason is stored if there is one, and the reservation is gone. |
| LeaveDatabase.Database.Cancel | modules/leave-request/cqrs/handlers/cancel-leave-request.handler.ts:32-82 | Errors in order; on success the request is CANCELLED and its reservation is gone. |
| ApprovalRouting.ResolveInitialRouting | modules/leave-request/services/leave-approval-routing.service.ts:20-40 | A new request starts short of the final stage, stamped by its submitter for exactly the stages it skips; only team leads skip one and only department heads and HR admins skip two. |
| ApprovalRouting.ResolveFinalApproverRole | modules/leave-request/services/leave-approval-routing.service.ts:42-45 | The final approver is an HR admin or a tenant admin, and never of the submitter's own role. |
| ApprovalRouting.RequiredRoleForStage | modules/leave-request/services/leave-approval-routing.service.ts:47-51 | A department head decides at TEAM_LEAD_COMMENTED and nowhere else; at any other stage it is never the submitter's own role. |
| ApprovalRouting.NextStatusOnApprove | modules/leave-request/services/leave-approval-routing.service.ts:53-57 | From every stage in flight the next status is one rank higher; APPROVED has none; REJECTED and CANCELLED, being no stages, come out as PENDING. |
| ApprovalRouting.IsCancellable | modules/leave-request/services/leave-approval-routing.service.ts:59-66 | A request can be cancelled exactly while the frontend shows a current stage for it, which is exactly while its rank is not terminal. |
| ApprovalRouting.AssertCanAct | modules/leave-request/services/leave-review-authorization.service.ts:24-52 | Success gives the acting user, who has exactly the required role and, as a team lead or department head, belongs to the department; the not-found error means exactly that the user does not exist. |
| LeaveAnswers.SubmitAnswers | modules/leave-request/cqrs/handlers/submit-leave-request.handler.ts:32-61 | Over the tables: a submission answers with the error of its first failing check, in the order of an active policy of the tenant, the department, its being active, the submitter, their belonging to it, the order of the dates, a fresh key and the usable balance, and succeeds if none fails. |
| LeaveAnswers.SubmitSucceedsExactlyIf | modules/leave-request/cqrs/handlers/submit-leave-request.handler.ts:32-98 | It succeeds if and only if the tenant has the policy and the department, both active, the submitter exists and belongs to the department, the dates are in order, the key is new, and the usable balance reaches the days asked for. |
| LeaveAnswers.NewRequestIs | modules/leave-request/cqrs/handlers/submit-leave-request.handler.ts:62-98 | A new request has half a day or the weekdays of its range, no comment and no final stamp, and its reservation is one pending deduction of those days at its start. |
| LeaveAnswers.NewRequestStartsAt | modules/leave-request/services/leave-approval-routing.service.ts:20-40 | A new request starts at the status that its submitter's present role calls for, a tenant admin's at PENDING, with the submitter's own stamps for exactly the stages skipped. |
| LeaveAnswers.ActionAnswers | modules/leave-request/services/leave-review-authorization.service.ts:30-51 | Over the tables: any action on a request of the tenant answers with the error of its first failing check, in the order of stage, actor, role and scope (or owner and stage, to cancel), and succeeds if none fails. |
| LeaveAnswers.MissingAnswers | modules/leave-request/cqrs/handlers/dept-approve-leave-request.handler.ts:33-36 | A request that is missing or of another tenant answers as not found, whatever the action. |
| LeaveAnswers.AssertCanActAnswers | modules/leave-request/services/leave-review-authorization.service.ts:24-93 | A missing actor is not found, and one of another role or out of scope is forbidden: team leads and heads outside the department, HR admins outside the tenant's HR department, tenant admins never. |
| LeaveAnswers.DeptCommentIs | modules/leave-request/cqrs/handlers/dept-approve-leave-request.handler.ts:50-58 | After every successful action the department comment is the one given with a department approval, and otherwise the one stored before. |
| LeaveAnswers.UpdateTakesEffect | modules/users/cqrs/handlers/update-user.handler.ts:10-42 | An update of a user of the tenant writes exactly the role and department it carries, if the department is none or one of the tenant; every other user, and every user after any other update, stays as they are. |
| LeaveRuns.ActionEffect | modules/leave-request/cqrs/handlers/hr-approve-leave-request.handler.ts:63-74 | A successful stage action or cancellation rewrites one request within its immutable columns, along an allowed status change, and touches no other request, user, policy or other request's rows. |
| LeaveRuns.SubmitEffect | modules/leave-request/cqrs/handlers/submit-leave-request.handler.ts:74-98 | A successful submission appends one request in flight under a new key with the columns asked for and half a day or the weekdays of its range, together with its reservation; it comes from a member of the department, and the usable balance covered it. |
| LeaveRuns.FailureChangesNothing | modules/leave-request/cqrs/handlers/submit-leave-request.handler.ts:32-61 | A command that fails leaves the whole database as it was, also when the reservation fails inside the transaction. |
| LeaveRuns.UpdatedUsersKeepKeys | modules/users/cqrs/handlers/update-user.handler.ts:10-42 | A user update keeps every user under the same key and tenant; a role changes only if it carries one, a department only if it carries one, null included, and then to none or to one of the tenant. |
| LeaveRuns.StageActionRaisesRank | modules/leave-request/services/leave-approval-routing.service.ts:9-14 | Every successful approval moves a request exactly to the next status of the stage order, and every ending action takes it to a terminal rank. |
| LeaveRuns.RanksNeverFall | modules/leave-request/services/leave-approval-routing.service.ts:53-66 | No step of the system lowers a request's rank, and a request at a terminal status is frozen in all its columns. |
| LeaveRuns.FewApprovals | modules/leave-request/services/leave-approval-routing.service.ts:9-14 | In any run a request takes at most three approving steps, fewer by as many stages as it had already passed. |
| LeaveRuns.OneEnding | modules/leave-request/services/leave-approval-routing.service.ts:59-66 | In any run a request is finally approved, rejected or cancelled at most once altogether. |
| LeaveInvariants.StepKeepsLedger | modules/leave-request/services/leave-balance.service.ts:28-85 | Every step keeps: each request owns exactly the rows its status calls for, and every other row is a settled job row already in effect. |
| LeaveInvariants.RunsKeepLedger | modules/leave-request/services/leave-balance.service.ts:28-85 | In every reachable state a request in flight owns exactly one pending deduction of its days dated at its start, an approved one the same row settled, a rejected or cancelled one none. |
| LeaveInvariants.PendingRowIffInFlight | modules/leave-request/utils/leave-request-approval-formatter.util.ts:3-16 | A request has a pending ledger row exactly if it can be cancelled, which is exactly if a current stage is shown for it. |
| LeaveInvariants.LedgerSplits | infrastructure/database/prisma/schema.prisma:287-307 | Every aggregate over the ledger is the aggregate over the rows of the jobs plus what each request owns. |
| LeaveInvariants.Conservation | modules/leave-request/cqrs/handlers/submit-leave-request.handler.ts:74-98 | In every reachable state the settled balance is the jobs' rows less the days of approved requests, the pending balance is minus the days in flight, and the usable balance is the jobs' rows less approved leave that has started. |
| LeaveInvariants.ActionMovesBalance | modules/leave-request/cqrs/handlers/hr-approve-leave-request.handler.ts:63-74 | What each successful action does to every balance: a final approval moves the request's days from pending to settled, a rejection or cancellation gives them back, nothing else moves. |
| LeaveInvariants.ApprovalOverdraws | modules/leave-request/cqrs/handlers/hr-approve-leave-request.handler.ts:63-74 | A final approval leaves a settled balance that is not negative if and only if the balance covers the days at that moment. |
| LeaveInvariants.RunConserves | modules/leave-request/cqrs/handlers/reject-leave-request.handler.ts:70-85 | Over any run, settled balance plus approved days moves by exactly what the job runs credited, and what is pending at the end is the days then in flight. |
| LeaveInvariants.RunFromEmpty | modules/leave-request/cqrs/handlers/hr-approve-leave-request.handler.ts:63-74 | From an empty ledger the settled balance at the end of any run is exactly the jobs' credits less the days of the approved requests. |
| LeaveInvariants.RunCredits | apps/worker/src/leave-accrual.scheduler.ts:37-97 | The rows that refer to no request sum to exactly the changes that the job runs of the whole history made to the key. |
| LeaveInvariants.LateRowsAreDebits | modules/leave-request/services/leave-balance.service.ts:53-65 | In every reachable state only debits are pending or dated in the future. |
| LeaveInvariants.RunsKeepSchema | infrastructure/database/prisma/schema.prisma:227-271 | Unique keys and every request's submitter survive any run. |
| LeaveInvariants.NeverInconsistent | modules/leave-request/cqrs/handlers/hr-approve-leave-request.handler.ts:39-43 | With submitters in place no command ever meets a request without its user. |
| LeaveSafety.RunsKeepStamps | modules/leave-request/cqrs/handlers/reject-leave-request.handler.ts:51-77 | In every reachable state the stamps are in order of stage and date and agree with the status: never both final stamps, one of them on APPROVED, none in flight or on CANCELLED, team-lead and department stamps on REJECTED, and no final stamp by the submitter. |
| LeaveSafety.StampersWereInDepartment | modules/leave-request/services/leave-review-authorization.service.ts:71-93 | Every team-lead or department stamp of a reachable request was made, on its date, by someone who then belonged to the request's department: a team lead or its head and no other role, except where the submitter's own role skips the stage. |
| LeaveSafety.StageDecidesActor | modules/leave-request/cqrs/handlers/reject-leave-request.handler.ts:57-77 | The stage alone decides whose role is needed and which one stamp is written, for comments, approvals and rejections alike; only the submitter cancels; the request is of the tenant that the command names. |
| LeaveSafety.SucceedsExactlyIf | modules/leave-request/services/leave-review-authorization.service.ts:24-52 | A command on a request of its tenant succeeds if and only if it is meant for the request's stage and the actor is qualified there, or is the submitter cancelling. |
| LeaveSafety.CommentsAreKept | modules/leave-request/cqrs/handlers/team-lead-comment-leave-request.handler.ts:57-59 | Under these six commands the comments table only grows: by a team lead's comment, and by a reason given with a rejection. |
| LeaveSafety.OwnFinalDecisionFails | modules/leave-request/cqrs/handlers/hr-approve-leave-request.handler.ts:50-59 | Whatever roles have changed, a submitter never finally approves, or rejects at DEPT_APPROVED, their own request. |
| LeaveSafety.OwnDeptDecision | modules/leave-request/cqrs/handlers/reject-leave-request.handler.ts:57-66 | At the department stage a submitter decides on their own request if and only if they are head of its department by then. |
| LeaveSafety.NoOwnDecisions | modules/leave-request/services/leave-approval-routing.service.ts:20-51 | With roles fixed, no submitter ever takes any stage action on their own request, in any run from an empty system. |
| LeaveSafety.PromotedSubmitterApproves | modules/leave-request/cqrs/handlers/dept-approve-leave-request.handler.ts:43-58 | Without fixed roles it does happen: a concrete team lead, promoted after submitting, gives the department approval to their own request. |
| LeaveSafety.SameDaysTwice | modules/leave-request/services/leave-balance.service.ts:39-52 | A reservation does not lower the balance the next one reads: any submission that succeeds, succeeds again under a fresh id. |
| LeaveOverbooking.SameDaysManyTimes | modules/leave-request/services/leave-balance.service.ts:39-65 | Whoever can book some days once, of whatever role, can book them any number of times: all submissions succeed, then every comment and approval from the stage they start at, each final approval taking the same days out of the settled balance. |
| LeaveOverbooking.BalanceBelowZero | modules/leave-request/services/leave-balance.service.ts:39-65 | A concrete run takes a balance of one day to minus one: the same Monday asked for twice and approved twice. |
| LeaveOverdraft.NeverNegativeIff | modules/leave-request/cqrs/handlers/hr-approve-leave-request.handler.ts:63-74 | Over every run a settled balance that starts at zero or above is never negative, if and only if every final approval finds its days in it and no carry-over with something to expire runs under None with approved leave to come, or under Limited with more of it than twice the limit (or than a negative limit); Full and NA never do it. |
| LeaveOverdraft.NeverOverbookedIff | modules/leave-request/services/leave-balance.service.ts:39-52 | The check that the reservation lacks: over every run settled plus pending stays at zero or above, if and only if every submission finds its days in it and no carry-over expires leave that is approved or asked for. |
| LeaveOverdraft.AffordedIsCovered | modules/leave-request/services/leave-balance.service.ts:39-52 | With that check on submission, every final approval would find its days and no settled balance would ever be negative. |
| LeaveOverdraft.NeverNegativeWithoutCarryOver | modules/leave-request/cqrs/handlers/hr-approve-leave-request.handler.ts:63-74 | Without a carry-over in the run, if and only if every final approval finds its days covered. |
| LeaveOverdraft.ExpiryOwesLeaveToCome | apps/worker/src/leave-accrual.scheduler.ts:226-244 | Under None the carry-over expires approved leave to come as well and leaves the settled balance at exactly minus that leave. |
| LeaveOverbooking.ExpiryBelowZero | apps/worker/src/leave-accrual.scheduler.ts:226-244 | A concrete run: one day left is asked for and finally approved, every step covered and the balance at zero, and the carry-over then takes it to minus one day. |
| LeaveTenants.RunsKeepTenants | modules/leave-request/leave-request.controller.ts:129-221 | If every command carries its actor's own tenant, as the controller takes both from one token, then in every reachable state each request's submitter and everyone who stamped it belong to its tenant. |
| LeaveTenants.StrangerSucceedsExactlyIf | modules/leave-request/services/leave-review-authorization.service.ts:24-93 | A user of another tenant succeeds if and only if it is the final decision, and they are a tenant admin deciding on an HR admin's request, or an HR admin without a department where the tenant has no HR department. |
| LeaveTenants.StrangerApproves | modules/leave-request/services/leave-review-authorization.service.ts:24-52 | It happens if a command names a foreign tenant: a concrete tenant admin approves a request of another tenant. |
| LeaveTenants.RunsKeepDepartments | modules/users/cqrs/handlers/update-user.handler.ts:18-42 | In any run users, requests and HR departments keep to departments of their own tenant, and requests to submitters of theirs. |
| LeaveTenants.SubmissionsAreAtHome | modules/leave-request/cqrs/handlers/submit-leave-request.handler.ts:38-56 | Nobody submits to a tenant other than their own, whatever tenant the command names. |
| LeaveSafety.CapKeptIff | apps/worker/src/leave-accrual.scheduler.ts:37-97 | Over every run a usable balance that starts within the policy's maximum never exceeds it, if and only if every carry-over that covers it leaves room: under Full twice the balance, under Limited twice the carried days, within the maximum; nothing else can exceed it. |
| LeaveSafety.RunsKeepCap | apps/worker/src/leave-accrual.scheduler.ts:37-97 | In particular it stays within the maximum through any run without the carry-over job. |
| AccrualLaws.CarryOverCap | apps/worker/src/leave-accrual.scheduler.ts:226-292 | One carry-over takes a balance over the maximum exactly under Full with twice the balance, or Limited with twice the carried days, above it; never under None or NA. |
| AccrualLaws.CarryOverCovers | apps/worker/src/leave-accrual.scheduler.ts:226-292 | One carry-over leaves days covered that were covered before, unless it expires them: under None as soon as there are any, under Limited if they exceed twice the limit (or a negative limit); never under Full or NA. |
| LeaveBalances.GetMyLeaveBalances | modules/leave-balance/queries/handlers/get-my-leave-balances.handler.ts:18-86 | One result per active policy of the tenant, in order, with the three aggregates and the clipped remainder of that policy's ledger. |
| LeaveBalances.DisplayedBalance | modules/leave-balance/queries/handlers/get-my-leave-balances.handler.ts:28-73 | The type and maximum shown are the policy's; in every reachable state pending is the days in flight, accrued less used is the settled balance, and remaining is the usable balance less approved leave to come less pending, not below zero: never more than a reservation would find. |
| LeaveBalances.ListedPolicies | modules/leave-balance/queries/handlers/get-my-leave-balances.handler.ts:21-24 | A policy at any place of the table is listed, at its place, exactly if it is an active one of the tenant. |
| LeaveBalances.AccruedLessUsed | modules/leave-balance/queries/handlers/get-my-leave-balances.handler.ts:29-54 | Although the two aggregates differ in their date filters, their difference is the whole settled balance, because no credit is dated in the future. |
| LeaveBalances.UsedAndAccrued | modules/leave-balance/queries/handlers/get-my-leave-balances.handler.ts:29-54 | Used is the approved days plus what the jobs expired; accrued is what the jobs credited. |
| LeaveAccrualScheduler.Scheduler.RunAccruals | apps/worker/src/leave-accrual.scheduler.ts:14-102 | The nested loops that the monthly and the yearly job share append exactly the rows due, each computed from the ledger as extended so far, and count them. |
| LeaveAccrualScheduler.Scheduler.RunMonthlyAccruals | apps/worker/src/leave-accrual.scheduler.ts:14-102 | The monthly job appends exactly the rows due under monthly policies. |
| LeaveAccrualScheduler.Scheduler.RunYearlyAccruals | apps/worker/src/leave-accrual.scheduler.ts:106-188 | The yearly job appends exactly the rows due under yearly policies. |
| LeaveAccrualScheduler.Scheduler.AccrueFor | apps/worker/src/leave-accrual.scheduler.ts:44-89 | One turn of the accrual loop inserts at most one credit, the one due from the balance then read. |
| LeaveAccrualScheduler.Scheduler.RunDevSeedAccruals | apps/worker/src/leave-accrual.scheduler.ts:307-390 | Nothing in production; otherwise the nested loops append exactly the rows due and count them. |
| LeaveAccrualScheduler.Scheduler.SeedFor | apps/worker/src/leave-accrual.scheduler.ts:337-377 | One turn of the seeding loop inserts at most one credit, the one due from the balance then read. |
| LeaveAccrualScheduler.Scheduler.RunYearEndCarryOver | apps/worker/src/leave-accrual.scheduler.ts:193-303 | The nested loops of the carry-over append exactly the rows due. |
| LeaveAccrualScheduler.Scheduler.CarryOverFor | apps/worker/src/leave-accrual.scheduler.ts:216-292 | One turn of the carry-over loop inserts the carried and expired rows that are due, in that order. |
| AccrualJobs.JobRowsShape | apps/worker/src/leave-accrual.scheduler.ts:76-87 | A job only appends settled rows of the current day that refer to no request. |
| AccrualLaws.JobRowKinds | apps/worker/src/leave-accrual.scheduler.ts:232-291 | Accrual and seed rows are positive ACCRUAL entries; carry-over rows are positive CARRY_OVER or negative EXPIRY entries; no row is zero. |
| AccrualJobs.UsersInAnyMembers | apps/worker/src/leave-accrual.scheduler.ts:38-40 | A policy reaches exactly the users of its departments, each once; with no departments it reaches nobody. |
| AccrualJobs.JobChangesBalance | apps/worker/src/leave-accrual.scheduler.ts:37-97 | One run of a job over all policies and employees changes each key's balance by what its covering policy calls for from the balance before the run, and leaves every other key untouched. |
| AccrualLaws.AccrualReaches | apps/worker/src/leave-accrual.scheduler.ts:17-97 | In the columns of the tables: an active policy of the job's own frequency, with the employee's department among its own, credits the employee the rate up to the maximum, in the usable and the settled balance alike; without such a policy the balance stays. |
| AccrualLaws.SeedReaches | apps/worker/src/leave-accrual.scheduler.ts:312-385 | In the columns of the tables: the same for the seed under active yearly and one-time policies, for balances below the rate only. |
| AccrualLaws.CarryOverReaches | apps/worker/src/leave-accrual.scheduler.ts:196-300 | In the columns of the tables: the carry-over brings every balance under an active policy of any frequency, with the employee's department among its own, to what the policy's kind gives, and no other balance moves. |
| AccrualLaws.RunTimesBalance | apps/worker/src/leave-accrual.scheduler.ts:37-97 | Any number of whole runs acts on each key as that many runs for the one employee and policy. |
| AccrualLaws.AccrualDelta | apps/worker/src/leave-accrual.scheduler.ts:55-69 | One accrual is the rate cut off at the maximum, and nothing from at or above the maximum. |
| AccrualLaws.AccrualClosedForm | apps/worker/src/leave-accrual.scheduler.ts:55-87 | n accruals alone take a balance b within the maximum to min(max, b + n * rate). |
| AccrualLaws.AccrualCap | apps/worker/src/leave-accrual.scheduler.ts:147-159 | No accrual or seeding takes a balance over the maximum, and none takes anything away. |
| AccrualLaws.SeedSettlesAtOnce | apps/worker/src/leave-accrual.scheduler.ts:348-375 | From a balance that is not negative one seeding suffices: the next has nothing to add. |
| AccrualLaws.SeedReachesFixpoint | apps/worker/src/leave-accrual.scheduler.ts:348-375 | From every balance, rate and maximum the seed reaches a fixpoint, after an explicit number of runs. |
| AccrualLaws.SecondSeedAppendsNothing | apps/worker/src/leave-accrual.scheduler.ts:330-385 | Over the whole nested loop, if no covered balance is negative a second seeding appends no row. |
| AccrualLaws.LimitedSplitsUnused | apps/worker/src/leave-accrual.scheduler.ts:258-291 | A Limited policy splits the unused days: carried and expired make up the whole, and no more than the limit is carried. |
| AccrualLaws.CarryOverBalances | apps/worker/src/leave-accrual.scheduler.ts:209-300 | What one carry-over run leaves over the whole nested loop: 0 under None, 2u under Full, 2 min(u, limit) under Limited, u under NA, and every uncovered key untouched. |
| AccrualLaws.CarryOverKeepsPromise | apps/worker/src/leave-accrual.scheduler.ts:226-292 | The balance afterwards is the one the policy promises, min(u, limit), if and only if nothing is to be carried or the rule does not apply. |
| AccrualLaws.CarryOverClosedForm | apps/worker/src/leave-accrual.scheduler.ts:226-292 | n carry-overs in a row: Full gives 2^n u, Limited gives min(2^n u, 2 limit), None 0, NA u. |
| AccrualLaws.SecondExpiryAppendsNothing | apps/worker/src/leave-accrual.scheduler.ts:232-244 | Under None a second run finds nothing left to expire for an employee. |
| AccrualLaws.SecondCarryOverAppendsNothing | apps/worker/src/leave-accrual.scheduler.ts:209-300 | Over the whole nested loop, if no policy carries days over a second run appends no row. |
| LeaveDays.CalculateTotalDays | packages/common/utils/leave-days.util.ts:1-10 | The day walk counts the weekdays of the range, which is a difference of closed forms in its two ends, and nothing for a reversed range. |
| LeaveDays.WeekdaysByWeeks | packages/common/utils/leave-days.util.ts:1-10 | A range of n days holds 5 (n div 7) + n mod 7 weekdays less the weekend days among the remainder, determined by the first weekday. |
| LeaveDays.WeekdaysAdditive | packages/common/utils/leave-days.util.ts:4-8 | Splitting a range after any of its days splits the count. |
| EcmaDate.SetDateMovesByDays | packages/common/utils/leave-days.util.ts:7 | Setting the day of the month k further moves a date by exactly k days, across month and year ends. |
| EcmaDate.WeekFromThursday | packages/common/utils/leave-days.util.ts:4-8 | Day 0 is Thursday, 1 January 1970, and the weekdays follow each other round the week. |
| EcmaDate.MonthLength | modules/calendar/ghana-public-holidays.service.ts:46 | The months have the lengths of the Gregorian calendar, with its leap years. |
| EcmaDate.MonthsFollow | modules/calendar/ghana-public-holidays.service.ts:46 | The first of every month is the day after the last of the month before, over the end of the year too. |
| ConflictDetection.PrefilterIsExact | modules/leave-request/services/conflict-detection.service.ts:31-43 | On every day of the window the prefiltered rows count as many absences as the whole request table. |
| ConflictDetection.Detect | modules/leave-request/services/conflict-detection.service.ts:16-82 | A warning appears if and only if some weekday of the range has five times the active requests covering it above the department's size; it lists all such days in order, as the walk over the prefiltered rows collects them, no more than there are weekdays, with the peak over all weekdays. |
| ConflictDetection.PeakCoversWeekdays | modules/leave-request/services/conflict-detection.service.ts:66-73 | The peak over the affected dates is the peak over all weekdays of the range, and is reached on one of them. |
| ConflictDetection.BreachesThreshold | modules/dashboard/dashboard-conflict cards/tenant-conflict-scan.service.ts:63-86 | The walk with its early return is true if and only if some weekday of the window is above the threshold, which is exactly if the walk of the conflict warning over the same rows and window lists a day. |
| ConflictDetection.CountConflictingDepartments | modules/dashboard/dashboard-conflict cards/tenant-conflict-scan.service.ts:21-61 | The count is the number of the tenant's active departments, in the whole table, that have members and a day above the threshold by approved leave. |
| ConflictLaws.DetectionCounts | modules/leave-request/services/conflict-detection.service.ts:31-43 | At any place of the table, a request adds one to a day's count for the warning exactly if it is of the tenant and department, is not the excluded one, is neither rejected nor cancelled, and covers the day. |
| ConflictLaws.ScanCounts | modules/dashboard/dashboard-conflict cards/tenant-conflict-scan.service.ts:40-49 | At any place of the table, a request adds one to a day's count for the scan exactly if it is an approved one of the tenant and department and covers the day. |
| ConflictLaws.SizeCounts | modules/leave-request/services/conflict-detection.service.ts:23-25 | At any place of the table, a user adds one to a department's size exactly if they are of the tenant and in the department. |
| ConflictLaws.ConflictingCounts | modules/dashboard/dashboard-conflict cards/tenant-conflict-scan.service.ts:26-58 | At any place of the table, a department adds one to the scan exactly if it is an active one of the tenant, has members, and on some weekday of the window more than 0.2 of them are off. |
| ConflictLaws.BreachIsOverAFifth | modules/leave-request/services/conflict-detection.service.ts:50-59 | A department is in breach on a day exactly if the day is a Monday to Friday and the share of members off is above 0.2. |
| ConflictLaws.PercentageIsNearest | modules/leave-request/services/conflict-detection.service.ts:80 | The percentage is the whole number nearest to the share, and the greater one at a half. |
| GhanaHolidays.OffsetBounds | modules/calendar/ghana-public-holidays.service.ts:39-43 | h is 0 to 29, l is 0 to 6, and m is 1 exactly if l is 6 and h is 29, or 28 with a above 10. |
| GhanaHolidays.MoonOffsetIsFullMoon | modules/calendar/ghana-public-holidays.service.ts:32-39 | 21 March plus h, less one day when h is 29, or 28 with a above 10, is the ecclesiastical full moon of the Gregorian computus, for every year. |
| GhanaHolidays.OffsetsReachSunday | modules/calendar/ghana-public-holidays.service.ts:34-42 | For every year h and l lead to a Sunday of the day-count calendar. |
| GhanaHolidays.EasterMarchDay | modules/calendar/ghana-public-holidays.service.ts:43-45 | Month and day are a valid date of March or April, from 22 March to 25 April, whichever month the division yields. |
| GhanaHolidays.EasterFollowsFullMoon | modules/calendar/ghana-public-holidays.service.ts:31-47 | For every Gregorian year the month and day computed are the first Sunday strictly after the ecclesiastical full moon. |
| GhanaHolidays.FirstSundayUnique | modules/calendar/ghana-public-holidays.service.ts:31-47 | That rule determines one date. |
| GhanaHolidays.GetEasterIsEaster | modules/calendar/ghana-public-holidays.service.ts:46 | The returned Date is Easter of its year if and only if the year is 100 or later; in the years 0 to 99, which the Date constructor moves by 1900, it is a Monday. |
| GhanaHolidays.EasterWindow | modules/calendar/ghana-public-holidays.service.ts:31-47 | Read back, the Date lies in its own year between 22 March and 25 April. |
| GhanaHolidays.EasterDays | modules/calendar/ghana-public-holidays.service.ts:49-65 | The three derived days are the Friday and Saturday before and the Monday after Easter, also across the end of March. |
| GhanaHolidays.EasterDaysInSpring | modules/calendar/ghana-public-holidays.service.ts:49-65 | All of them fall in March or April of the same year. |
| GhanaHolidays.GetFarmersDay | modules/calendar/ghana-public-holidays.service.ts:68-74 | The loop ends on the first Friday of December, within its first seven days. |
| GhanaHolidays.HolidaysInCalendarOrder | modules/calendar/ghana-public-holidays.service.ts:11-28 | The fourteen dates are valid dates of the year in strict calendar order, so no two holidays coincide however Easter falls. |
| GhanaHolidays.HolidaysAreKept | modules/calendar/ghana-public-holidays.service.ts:11-28 | The list holds exactly these dates, each name once: every fixed holiday on its month and day, the three days around the first Sunday after the ecclesiastical full moon, and the first Friday of December. |
| GhanaHolidays.MonthsPartitionYear | modules/calendar/ghana-public-holidays.service.ts:76-81 | Each holiday of the year is reported in exactly one of the twelve months, its own, as often as it is listed. |
| RefreshTokens.RunsKeepInv | modules/auth/cqrs/handlers/refresh-token.handler.ts:20-96 | Under every interleaving of refresh, logout and login: rows have distinct ids that never change, whoever deleted a row is the only one, and a blacklisted token has no row. |
| RefreshTokens.DeleteById | modules/auth/cqrs/handlers/refresh-token.handler.ts:71-72 | Deleting by the id read earlier removes exactly the row of that token if it is still there, and fails exactly if it is not. |
| RefreshTokens.OneSuccessPerToken | modules/auth/cqrs/handlers/logout.handler.ts:10-20 | In any run at most one call ever succeeds with a given token, refresh or logout. |
| RefreshTokens.OneClaimPerLoss | modules/auth/cqrs/handlers/refresh-token.handler.ts:71-72 | Every token that has lost its row was taken by exactly one call, by rotating, logging out or expiry. |
| RefreshTokens.GoneForGood | modules/auth/token.services.ts:26-33 | A token that has lost its row never gets one again. |
| RefreshTokens.BlacklistedIsGone | modules/auth/cqrs/handlers/refresh-token.handler.ts:75-76 | A blacklisted token has no row, now or at any later point of any run. |
| RefreshTokens.RedisIsIrrelevant | infrastructure/cache/redis.service.ts:10-39 | Two runs that differ only in what Redis answers or forgets leave the same token table, and the same calls succeed with the same results. |
| RefreshTokens.SessionsConserved | modules/auth/cqrs/handlers/refresh-token.handler.ts:71-90 | Over any run, token rows plus rotations under way equal those at the start plus logins less logouts and expiries: refreshing never turns one session into two. |
| RefreshTokens.RunsServeOwners | modules/auth/cqrs/handlers/refresh-token.handler.ts:62-90 | Under every interleaving the token that a rotation hands out is issued to the user that the old one was issued to. |
| AuthHandlers.AuthServer.Refresh | modules/auth/cqrs/handlers/refresh-token.handler.ts:20-96 | A refresh that nothing interrupts: the reason of each rejection and what it leaves, and on success the old row gone, the token blacklisted if Redis answers, and one new row for the same user. |
| AuthHandlers.AuthServer.Logout | modules/auth/cqrs/handlers/logout.handler.ts:10-20 | A logout that nothing interrupts removes the token's row, or reports that there is none. |
| AuthHandlers.AuthServer.GenerateTokens | modules/auth/token.services.ts:14-35 | One new row for the user under the fresh token, expiring in seven days. |
| AuthHandlers.RefreshAloneIsARun | modules/auth/cqrs/handlers/refresh-token.handler.ts:20-96 | The uninterrupted refresh is one of the protocol's interleavings, so all results on interleavings hold of it. |
| AuthHandlers.LogoutAloneIsARun | modules/auth/cqrs/handlers/logout.handler.ts:10-20 | So is the uninterrupted logout, whatever Redis does. |
| TokenLifetime.RefreshSucceedsExactlyIf | modules/auth/cqrs/handlers/refresh-token.handler.ts:27-69 | A refresh on its own succeeds if and only if the token has a row that has not expired and belongs to a user who exists, and otherwise names the first of these that fails; the blacklist turns away no token that has a row. |
| TokenLifetime.RefreshLeaves | modules/auth/cqrs/handlers/refresh-token.handler.ts:50-90 | A successful refresh replaces the token's row by one of the same user that expires 604800000 milliseconds later, and blacklists the token if Redis answers; an expired row goes; no other row is touched. |
| TokenLifetime.LogoutSucceedsExactlyIf | modules/auth/cqrs/handlers/logout.handler.ts:10-20 | A logout on its own succeeds if and only if the token has a row, and takes that row alone. |
| TokenLifetime.IssuedForSevenDays | modules/auth/token.services.ts:26-32 | A token that a run has put into the table was put there by one event, and expires 604800000 milliseconds after it. |
| TokenLifetime.RefreshedForSevenDays | modules/auth/cqrs/handlers/refresh-token.handler.ts:50-56 | After any run, a token whose row is in place and whose user exists is rotated if at most 604800000 milliseconds have passed since the event that issued it, and turned away as expired if more have. |
| TokenLifetime.RotatedWithinSevenDays | modules/auth/cqrs/handlers/refresh-token.handler.ts:39-69 | Under every interleaving, a call that rotates a token looked its row up within seven days of the event that issued it, and its user exists; a call that ends as expired looked it up later than that. |
| Birthdays.OneBirthdayAYear | modules/birthday/handlers/get-upcoming-birthdays.handler.ts:49-53 | Normalising the month and day of birth into a year gives everyone exactly one birthday in it, those born on 29 February included. |
| Birthdays.NextOccurrenceIsFirst | modules/birthday/handlers/get-upcoming-birthdays.handler.ts:48-58 | For every day: the date compared with the window is the first birthday from today on, if and only if no 29 February is missed after the wrap to next year and the year is not one of 0 to 99; a missed one makes it a day late. |
| Birthdays.LeapDayIsMissed | modules/birthday/handlers/get-upcoming-birthdays.handler.ts:55-58 | A 29 February is missed at a concrete day: born on 29 February 2000, seen from 2 March 2023, the birthday of 29 February 2024 comes out as 1 March. |
| Birthdays.InWindowIsExact | modules/birthday/handlers/get-upcoming-birthdays.handler.ts:60 | For every day and window the test answers whether a birthday falls on one of its days, if and only if the window does not end on a missed leap day itself or, in the years 0 to 99, between the first birthday and this year's, moved to the twentieth century. |
| Birthdays.ShortWindowsMisreadNobody | modules/birthday/handlers/get-upcoming-birthdays.handler.ts:42-60 | From the year 100 on, no window of under 60 days misreads anyone. |
| Birthdays.GetUpcomingBirthdays | modules/birthday/handlers/get-upcoming-birthdays.handler.ts:19-76 | The loop with its moving date yields the entries of the tenant's users with a birth date, in order. |
| Birthdays.UpcomingIsExact | modules/birthday/handlers/get-upcoming-birthdays.handler.ts:45-75 | For every day and window the list holds exactly the tenant's users with a birthday in the window, each with the number of days to the first one and marked as today exactly on the day, if and only if none of them is misread: the date compared is not the first birthday, and that lies in the window. |
| BirthdayNotifications.UpcomingNowIsExact | modules/birthday/handlers/send-birthday-notifications.handler.ts:24-27 | The list that the job works from, with its window of seven days, is exact on every day from the year 100 on. |
| BirthdayNotifications.SourceIdInjective | modules/birthday/handlers/send-birthday-notifications.handler.ts:55-56 | The source id tells person and day text apart, whatever the id contains. |
| BirthdayNotifications.IsoDayInjective | modules/birthday/handlers/send-birthday-notifications.handler.ts:20 | Within the four-digit years the day text tells the day. |
| BirthdayNotifications.AnnouncementReads | modules/birthday/handlers/send-birthday-notifications.handler.ts:43-56 | Title, message, priority, source type and source id of a notification, by whether the birthday is today, and with one day told apart from several. |
| BirthdayNotifications.DecimalReads | modules/birthday/handlers/send-birthday-notifications.handler.ts:49 | The number of days in a message is read back as that number, without a leading zero. |
| BirthdayNotifications.IsoDayReads | modules/birthday/handlers/send-birthday-notifications.handler.ts:19-20 | Within the four-digit years the text of a day is the year, month and day in digits, parted by dashes. |
| BirthdayNotifications.RecipientsAre | modules/birthday/handlers/send-birthday-notifications.handler.ts:35-38 | The recipients are exactly the users of the tenant, each once. |
| BirthdayNotifications.BirthdayJob.SendBirthdayNotifications | modules/birthday/handlers/send-birthday-notifications.handler.ts:18-97 | The nested check-then-insert loops leave the table that the job calls for and report the number of rows inserted. |
| BirthdayNotifications.JobIsExact | modules/birthday/handlers/send-birthday-notifications.handler.ts:42-90 | A run only appends; each appended row announces an upcoming birthday to another user of the tenant and is the first with its key; afterwards everyone the database did not fail for has been told of every upcoming birthday. |
| BirthdayNotifications.RunsNotifyOnce | modules/birthday/handlers/send-birthday-notifications.handler.ts:55-68 | However often the job runs, over failures, other notifications and changing users: at most one notification per recipient, birthday person and day, and none to the person themselves. |
| BirthdayRaces.OnceIffNoRace | modules/birthday/handlers/send-birthday-notifications.handler.ts:62-80 | With the check and the insert of each row as separate steps and any number of overlapping, failing runs: nobody is told twice of a birthday on one day, if and only if no two runs inserted a row that both were past checking when the first of them did. |
| BirthdayRaces.Overtaken | modules/birthday/handlers/send-birthday-notifications.handler.ts:62-80 | A run about to insert a row that is there already was overtaken by another run, at a moment when both were about to insert it. |
| BirthdayRaces.TurnsSuffice | apps/worker/src/birthday-notification.scheduler.ts:16-31 | If no two runs are ever under way together, nobody is told twice. |
| BirthdayRaces.TwoAtOnceTellTwice | apps/worker/src/birthday-notification.scheduler.ts:16-31 | Two runs started together and stepping in turn tell their first recipient twice. |
| BirthdayRaces.AloneIsTheJob | modules/birthday/handlers/send-birthday-notifications.handler.ts:42-90 | A run whose steps nothing comes between leaves the table exactly as the job in one go. |
| BirthdayNotifications.FirstRunCount | modules/birthday/handlers/send-birthday-notifications.handler.ts:42-90 | The first run of a day inserts exactly the tenant's users less one, per upcoming birthday. |
| BirthdayNotifications.RerunAddsNothing | modules/birthday/handlers/send-birthday-notifications.handler.ts:63-68 | Running it again on the same day inserts nothing, unless a failure of the first run has gone away. |
| BirthdayNotifications.OtherDaysStayUntold | modules/birthday/handlers/send-birthday-notifications.handler.ts:56 | A run leaves other days untold, so the next day's first run tells everyone again. |

## Left out

- Races inside the leave handlers: each reads status and actor before its transaction; here each handler is one atomic step, and so is a whole run of an accrual job. Interleaved step by step are the token protocol and the birthday job.
- Redis expiry times: an entry may vanish at any moment, which covers the 300 seconds and every eviction.
- A Prisma delete is taken to fail when the row is missing, and generated uuids never to repeat; an event that would reuse one belongs to no run.
- Users that disappear while tokens are being refreshed: the set of users is fixed during a run of the token protocol, and rows deleted with their user are not modelled.
- `isRevoked` of refresh tokens, which no handler reads; JWT signing, bcrypt and the access token.
- Time of day and time zones: instants are whole UTC days, also in date strings of requests; the expiry of tokens alone is in milliseconds.
- Floating point: accrual rates and maxima are hundredths, and amounts beyond `DECIMAL(5,2)` are not cut off. The 20 percent threshold is written as five times the absences above the size, which over the reals is a share above 0.2 (`BreachIsOverAFifth`).
- Dates that have no four-digit year: the holiday list's strings for years past 9999 are not modelled.
- BirthdayNotifications.IsoDayInjective: only for the years 0 to 9999, where the text has day and month; outside them it is cut off before the day.
- Failures of single inserts in the accrual jobs, which their loops log and pass over; the birthday job's are modelled.
- The per-command ledger handlers of the leave-balance module, which repeat the ledger service and are not called by the workflow; manual adjustments and reinstatements.
- Creation, change and removal of tenants, departments, policies and users, apart from role and department updates (unsetting the department included); offboarded users; cascading deletes. Within a run, tenants, departments and policies stay as they are.
- Stored columns that nothing modelled here reads: `isHalfDay`, notes, timestamps, read marks, contact data.
- The formatter's per-stage fields apart from the current stage; audit queries, dashboards, pagination, the general comment thread.
- The policy cache in Redis, which updates do not invalidate.
- Notifications, queues, mail, controllers, guards and request validation.
