# Verified model of the workspace server

This project models the parts of the workspace server that behave like protocols over tables, and proves
what they keep. Tables are maps from key to row; a query is a function, or a method of a class whose
fields are the rows it updates in place; a transaction is one atomic step, and where a guard is a
compare-and-set the read and the write are separate steps that interleave freely. One organization's rows
are modelled, so `organization_id` does not appear. `now`, due dates and rosters are inputs.

`dafny verify dfyconfig.toml` checks everything.

## What is modelled

- **Departments** (`department_forest`, `department_tree`, `department_counts`, `department_history`,
  `department_store`): the parent column as a forest, the two recursive queries with their bag semantics,
  the cached counts, and the handlers with any subset of their secondary statements failing.
- **Transactions** (`transaction`): `WithTxn` with failing begin, body, rollback and commit, and panics, and
  the commands it sends.
- **Ritual work** (`compare_and_set`, `pool_slots`, `evidence_snapshot`, `reconciliation`, `least_assigned`,
  `ritual_schedule`, `recurrence`, `review_queue`, `team_attention`): overlapping background passes, the allocator, generation
  and schedule change, the review queue and the supervisor's summary.
- **Documents** (`document_access`, `document_versions`), **chat** (`chat_paging`, `chat_membership`) and
  **bookings** (`bookings`).
- **Commands** (`sse_debug`, `maestro_env`): the loops of the SSE debug view, and the fixture file from
  printer to both of its readers.
- `lexicographic`, `keyset_paging`, `tally` and `prelude` hold what these share.

## Where the code differs from what is said of it

Each of these is proved, with the exact condition where there is one.

- The department count comments require every statement to be paired with its count adjustment. The
  handlers run each statement on its own and only log a failed adjustment, and deleting a department never
  decrements its parent's `child_count`. `DepartmentHistory.HistoryFollowsTheAccount` says what this adds up
  to over any history of failing statements, `HistoryFollowsTheLedger` over those that lose no increment,
  `OverCountedIsNeverDeletable` and `LostIncrementLosesPeople` what it costs, and
  `DepartmentCounts.ExactIff` when the counts survive a request.
- The move check and the move are separate statements: `DepartmentForest.StaleChecksCloseACycleIff`.
- Every pool-slot mutation is said to be a compare-and-set that assigns once and notifies once. Following a
  swap expects `resolved` and leaves `resolved`, so it excludes nobody:
  `PoolSlots.ExclusiveExceptForSwaps`; nor does it exclude a withdrawal or an override decided from the same
  record, and whom it brought in stays on the task: `PoolSlots.SwapsAndTheFirstOtherWrite`,
  `PoolSlots.SwappedInStayOnTheTask`. The binding path assigns its pick before the compare-and-set, so the
  picks of losing passes stay on the task: `PoolSlots.LosersStayOnTheTask`. The owner alert is not sent for
  every row returned, only within seven days: `PoolSlots.PoolAssignments.EscalateOne`.
- An instance's state is said not to depend on which path touched it last. When a sweep and the last
  approval overlap and the sweep writes first, a later sweep repairs it if and only if the first found
  neither everything awaiting the reviewer nor the grace window past. Otherwise everything is approved and the
  instance stays submitted, which no sweep lists, until new evidence is decided, or missed for good:
  `Reconciliation.OverlapLosesTheVerificationIff`, `NewEvidenceHelpsIff`. Two approvals at once do the same
  without a sweep, as neither transaction sees the other's decision: `VerifiedIffSeenApproved`,
  `TwoApprovalsAtOnce`.
- "Every n days" restarts its count at each sweep, and so does a weekly rule that names no day:
  `Recurrence.IntervalRuleSurvivesIff`, `Recurrence.WeeklyRuleSurvivesIff`.
- The schedule-change preview is said to match the execution. It does not look at the current rule, and
  asking for that one changes nothing; nor at whether the definition is archived, at today's instance or at
  other definitions, which the reported creations depend on: `RitualSchedule.PreviewAgreesIff` says when each of
  the three numbers agrees. After a plain edit of the rule the schedule change to it is such a request:
  `RitualSchedule.EditThenChangeDoesNothing`.
- The review queue count is said to use the identical predicate; it joins three tables fewer:
  `ReviewQueue.CountAgreesIffJoined`. Its paging is exact for submissions whose urgency stays; one that
  stays listed is certain to be seen if and only if it never becomes urgent between two pages:
  `ReviewQueue.SeenInEveryWalkIffItNeverTurnsUrgent`.
- `CheckAccess` drops an error of the department query and lets visibility decide:
  `DocumentAccess.DroppedErrorChangesTheAnswerIff`. The latest version number is `version_count` only if the
  initial version was recorded: `DocumentVersions.VersionsFollowTheSaves`. Both are differences of the
  functions; called inside `WithTxn`, where a failed statement makes the commit fail as well, they need not reach
  a caller.
- The `IS NULL` leg of the notification query selects nothing: `ChatMembership.SelectedIff`.
- A booking may end where it starts, or before, because the schema and the handler check the order only for
  events that are not all-day. `Bookings.RangesMeetIff` says when such a booking conflicts,
  `Bookings.EmptyBookingsDoNotBlock` that any number of them are taken together.
- Changing the times of an event leaves its bookings at the old times. Events that hold one resource can then
  clash, and what has become free is refused: `Bookings.UpdateKeepsFreeIff`, `CreateKeepsFreeIff` and
  `CheckIsExactIff` give the conditions.
- The "missing" listener default is never shown, because the status query answers for every requested
  instance: `SseDebug.FetchStatuses`, `SseDebug.DebugSSEConnections`.
- The fixture runner is said not to carry `=` in a value. It does; what it cannot carry is a newline or an
  empty value: `MaestroEnv.RunnerReadsBackIff`. The single quote matters to the Makefile only.

## Model

| member | source | states |
|---|---|---|
| DepartmentForest.RecursionEndsIffAcyclic | backend/database/organization.query.sql.go:758-784 | the UNION ALL recursion ends for every start exactly when the table has no cycle, within as many rounds as there are departments |
| DepartmentForest.DescendantMeansBelow | backend/database/organization.query.sql.go:758-784 | the query's answer is "start is target or stands above it" |
| DepartmentForest.ForestIsAcyclic | backend/database/organization.query.sql.go:758-812 | rooted everywhere is the same as no dangling parent and no cycle |
| DepartmentForest.MoveIsSafeIffNotDescendant | backend/internal/department/department.go:361-392 | the move guard is exact: a move keeps the forest if and only if the query says the new parent is not a descendant |
| DepartmentForest.MoveToRootIsSafe | backend/database/organization.query.sql.go:798-812 | moving to root always keeps the forest |
| DepartmentCounts.MoveIsAllowedIffSafe | backend/internal/department/department.go:361-432 | with its guards the handler makes a move, to the root or below a department, if and only if the result is a forest |
| DepartmentForest.StaleChecksCloseACycleIff | backend/internal/department/department.go:312-330 | two moves checked against the same table spoil the forest exactly when each goes below the other's department |
| DepartmentForest.StaleChecksExample | backend/internal/department/department.go:312-330 | such a pair exists |
| DepartmentForest.EveryRunKeepsForest | backend/database/organization.query.sql.go:244-356 | every run of creations, guarded moves and guarded deletions keeps the table a forest |
| DepartmentForest.GuardsAreExact | backend/internal/department/department.go:183-566 | of a forest, a creation, move or deletion goes through exactly if it leaves a forest |
| DepartmentTree.ListedOnce | backend/database/organization.query.sql.go:469-525 | the tree query holds a department in one round, once, with the path from root to it and depth one less than the path's length |
| DepartmentTree.ListingIsCompleteIffForest | backend/database/organization.query.sql.go:469-525 | it lists every department exactly when the table is a forest |
| DepartmentTree.ListingCount | backend/database/organization.query.sql.go:469-525 | one row per department |
| DepartmentTree.RowsMatchDepartments | backend/database/organization.query.sql.go:469-525 | rows and departments correspond one to one |
| DepartmentTree.PrefixMeansAbove | backend/database/organization.query.sql.go:469-525 | one path is a prefix of another exactly when its department stands above |
| DepartmentTree.ListingIsPreorder | backend/database/organization.query.sql.go:519-525 | sorted by path, every subtree is one contiguous block that starts with its top department |
| DepartmentTree.ParentComesFirst | backend/database/organization.query.sql.go:519-525 | a parent's row precedes its child's |
| DepartmentCounts.NeverShortCovers | backend/database/organization.query.sql.go:291-343 | where no count is short, no GREATEST clamp bites |
| DepartmentCounts.HandlerLaw | backend/internal/department/department.go:183-913 | in any state, for every request and every set of failing statements, the drift of each count at each department moves by exactly the bookkeeping left undone and what the GREATEST clamps swallow |
| DepartmentCounts.CoveredSwallowsNothing | backend/database/organization.query.sql.go:291-343 | clamps swallow nothing where the counts cover the rows |
| DepartmentCounts.CoveredLaw | backend/internal/department/department.go:183-913 | there the drift moves by the bookkeeping left undone alone |
| DepartmentCounts.NewDepartmentIsExact | backend/internal/department/department.go:183-264 | a created department starts with exact counts |
| DepartmentCounts.ExactIff | backend/internal/department/department.go:183-913 | exact counts stay exact after a request if and only if nothing was left undone |
| DepartmentHistory.DeleteTakesOnlyEmptyDepartments | backend/database/organization.query.sql.go:337-356 | with exact counts, deletion goes through exactly for departments without members and children |
| DepartmentHistory.DeleteLosesPeopleIffShort | backend/database/organization.query.sql.go:337-356 | a deletion takes memberships with it exactly when the member count is short |
| DepartmentHistory.LostIncrementLosesPeople | backend/internal/department/department.go:676-710 | a lost increment can make that happen |
| DepartmentHistory.TotalIsHeadcount | backend/database/organization.query.sql.go:728-756 | summed over departments, member_count is the number of assigned employees |
| DepartmentHistory.HandleKeepsForest | backend/internal/department/department.go:312-566 | whichever secondary statements fail, a request keeps the forest |
| DepartmentHistory.MembershipsAreAsAsked | backend/internal/department/department.go:497-907 | whichever secondary statements fail, the memberships end exactly as the request asks |
| DepartmentHistory.ParentsAreAsAsked | backend/internal/department/department.go:183-566 | and so does the hierarchy |
| DepartmentHistory.CommittedStateIsSound | backend/database/txn/txn.go:17-45 | with the prescribed statements in transactions, over any history of failures, panics and lost commits, the committed tables are a forest with exact counts |
| DepartmentHistory.HistoryFollowsTheLedger | backend/internal/department/department.go:497-566 | over any history of the handlers in which no increment is lost, no count is ever short and child_count is above the truth by at least the children deleted; if nothing fails, by exactly those, and the other counts are exact |
| DepartmentHistory.HistoryFollowsTheAccount | backend/internal/department/department.go:183-913 | over any history, whichever secondary statements fail, a department's drift is the sum of what was left undone and swallowed there |
| DepartmentHistory.LosesIncrementIff | backend/internal/department/department.go:183-913 | which failing statements leave some count too low |
| DepartmentHistory.NobodyIsLost | backend/internal/department/department.go:497-566 | if no increment was lost, no deletion takes a membership with it |
| DepartmentHistory.OverCountedIsNeverDeletable | backend/internal/department/department.go:512-566 | a department counted too high, by a lost decrement or a deleted child, is never deletable again unless an increment is lost too |
| DepartmentHistory.NeverDeletableAgain | backend/internal/department/department.go:512-566 | in particular one that lost a child to deletion, whatever else fails |
| DepartmentStore.DepartmentTables.IsDepartmentDescendant | backend/database/organization.query.sql.go:758-784 | the rounds of the recursion compute the descendant relation |
| DepartmentStore.DescendantRounds | backend/database/organization.query.sql.go:758-784 | the rounds end and collect exactly the descendants |
| DepartmentStore.DepartmentTables.CreateDepartment | backend/internal/department/department.go:183-264 | the statements in order have the effect of the specified request, and the reply says whether the parent was found |
| DepartmentStore.DepartmentTables.MoveDepartment | backend/internal/department/department.go:312-495 | the statements in order have the specified effect; not found exactly if one of the departments is missing, refused exactly if the move would spoil the forest, and otherwise the department ends where it was asked to be |
| DepartmentStore.DepartmentTables.DeleteDepartment | backend/internal/department/department.go:497-566 | the same for deletion, with the stored counts and the restricting and cascading keys |
| DepartmentStore.DepartmentTables.AssignEmployeeToDepartment | backend/internal/department/department.go:569-708 | the same for assignment, transfer and role change |
| DepartmentStore.DepartmentTables.RemoveEmployeeFromDepartment | backend/internal/department/department.go:711-760 | the same for removal |
| DepartmentStore.DepartmentTables.SetDepartmentManager | backend/internal/department/department.go:762-862 | the same for promotion |
| DepartmentStore.DepartmentTables.ClearDepartmentManager | backend/internal/department/department.go:864-907 | the same for demotion of all managers |
| Transaction.Database.WithTxn | backend/database/txn/txn.go:17-45 | all or nothing; each outcome exactly for its combination of failures; an open transaction is ended on every exit by exactly one command, commit after nil and rollback after an error or a panic |
| Transaction.HistoryKeeps | backend/database/txn/txn.go:17-45 | a condition kept by every completed body holds of the committed state over any history |
| LeastAssigned.PickIsFewestThenLowest | backend/database/collaboration.query.sql.go:2104-2123 | the pick has the fewest recent assignments, and the lowest id among those |
| LeastAssigned.SeatsCount | backend/database/collaboration.query.sql.go:2074-2083 | what counts for an employee: each seat within the period on a ritual instance, in whatever role, once |
| LeastAssigned.OldAndOtherSeatsDoNotMatter | backend/database/collaboration.query.sql.go:2069-2123 | seats from before the period or on other tasks change neither query's pick |
| LeastAssigned.PickIgnoresOrder | backend/database/collaboration.query.sql.go:2104-2123 | candidate order and repeats do not matter |
| LeastAssigned.TheTwoQueriesAgree | backend/database/collaboration.query.sql.go:2069-2093 | the department query is the candidate query on the active members |
| LeastAssigned.ActiveMembersAreTheRows | backend/database/collaboration.query.sql.go:3112-3122 | the member list holds exactly the active members of the department |
| LeastAssigned.AssignmentCountsOnce | backend/internal/collaboration/assignment_logic.go:74-105 | a recent ritual assignment raises one employee's load by one |
| LeastAssigned.AssigningAgainChangesNothing | backend/internal/collaboration/assignment_logic.go:74-105 | assigning somebody again does not move the date from which it counts |
| LeastAssigned.SpreadNeverGrows | backend/database/collaboration.query.sql.go:2104-2123 | picking keeps the spread within max(initial, 1) |
| LeastAssigned.LevelExactlyWhenDeficitIsFilled | backend/database/collaboration.query.sql.go:2104-2123 | the spread is at most 1 after n picks if and only if n has reached the total shortfall |
| LeastAssigned.GenerationIsFair | backend/internal/collaboration/scheduler_logic.go:208-262 | both hold of the tables when every new instance is given to the query's pick |
| CompareAndSet.EveryRunIsHonest | backend/internal/collaboration/ritual_task_state.go:186-212 | over every interleaving of passes and edits, only a pass announces a change, its own, and at most once |
| CompareAndSet.EveryChangeIsAnnouncedOnce | backend/internal/collaboration/ritual_task_state.go:186-212 | if no pass gives up between writing and announcing, each change a pass made is announced exactly once, and no other |
| CompareAndSet.EveryRunIsFaithful | backend/database/collaboration.query.sql.go:6244-6267 | no pass overwrites a value other than the one its decision was made from |
| CompareAndSet.OneOfManyMakesTheChange | backend/database/collaboration.query.sql.go:6262-6267 | of all passes deciding on a change from one value at most one makes it, unless the value is put back |
| CompareAndSet.FirstToAttemptHasIt | backend/database/collaboration.query.sql.go:6262-6267 | over every interleaving of any number of passes that decided from one value, exactly one writes once one has attempted: whoever attempted first |
| CompareAndSet.ExactlyOneMakesAndAnnouncesIt | backend/internal/collaboration/ritual_task_state.go:186-212 | when all are done, exactly one has written and that write has been announced exactly once |
| CompareAndSet.ReadersRace | backend/internal/collaboration/ritual_task_state.go:133-185 | passes that read the same value are in such a race |
| CompareAndSet.ExclusiveIffTheValueChanges | backend/database/collaboration.query.sql.go:5337-5359 | of any number of passes with one expected value and one target, over every interleaving, one writes if the two differ and all of them if they do not |
| CompareAndSet.WritesAscend | backend/internal/collaboration/ritual_task_state.go:186-212 | under a rule that only moves up, and without edits, the writes to a row ascend strictly |
| PoolSlots.EveryTableIsValid | backend/database/migrations/20260904000001_ritual_on_shift_assignment.up.sql:20-74 | in every reachable table one record per instance and pool, with the columns each state allows |
| PoolSlots.OneRecordEach | backend/database/collaboration.query.sql.go:6699-6745 | a record refuses others for its instance and pool, and for no other |
| PoolSlots.ClosedIsFinal | backend/database/collaboration.query.sql.go:281-304 | a closed record changes no more, and is left only by deletion |
| PoolSlots.BindingsAndWithdrawalsAlternate | backend/database/collaboration.query.sql.go:6761-6780 | bindings and withdrawals of a record alternate, and it is closed at most once |
| PoolSlots.GuardedStatementIsAnAttempt | backend/database/collaboration.query.sql.go:5337-5359 | each guarded statement is one attempt on the state column from the state it expects |
| PoolSlots.OnePassEscalates | backend/database/collaboration.query.sql.go:302-304 | a record is escalated at most once, however many passes overlap |
| PoolSlots.ExactlyOneEscalates | backend/internal/collaboration/ritual_shift_resolution_logic.go:390-430 | of any number of overlapping passes that saw it waiting, exactly one closes a record and goes on to the alert, once; EscalateOne sends it within the horizon |
| PoolSlots.OnePassBinds | backend/internal/collaboration/ritual_shift_resolution_logic.go:140-167 | two bindings of a record have a return to waiting between them |
| PoolSlots.ExclusiveExceptForSwaps | backend/internal/collaboration/ritual_shift_resolution_logic.go:244-281 | of any number of passes that saw the same record, over every interleaving, all write when they follow a swap; on every other move one does |
| PoolSlots.FinishedIsFollowedUp | backend/internal/collaboration/ritual_shift_resolution_logic.go:173-286 | any number of passes that read one bound slot, each with its own decision, over every interleaving, end as the next two rows assume |
| PoolSlots.AnyOrderCanHappen | backend/internal/collaboration/ritual_shift_resolution_logic.go:173-286 | every order of their attempts occurs |
| PoolSlots.SwapsAndTheFirstOtherWrite | backend/internal/collaboration/ritual_shift_resolution_logic.go:173-286 | the swaps attempted before the first other move write, and so does that, and nobody else; the slot stays bound exactly if all are swaps, to the last one's pick |
| PoolSlots.SwappedInStayOnTheTask | backend/internal/collaboration/ritual_shift_resolution_logic.go:244-281 | everybody those swaps brought in stays on the task; it agrees with the record exactly if they are the holder or were there before |
| PoolSlots.LosersStayOnTheTask | backend/internal/collaboration/ritual_shift_resolution_logic.go:140-167 | one pick is recorded and notified, but every pass's pick stays assigned; only the recorded one was added exactly when all picks agree |
| PoolSlots.PoolAssignments.UpsertRitualPoolAssignment | backend/database/collaboration.query.sql.go:6699-6745 | inserts unless the instance and pool have a record |
| PoolSlots.PoolAssignments.ResolveRitualPoolAssignment | backend/database/collaboration.query.sql.go:5337-5359 | writes exactly a record still in the expected state |
| PoolSlots.PoolAssignments.CloseRitualPoolAssignment | backend/database/collaboration.query.sql.go:281-304 | the same for closing |
| PoolSlots.PoolAssignments.WithdrawRitualPoolAssignment | backend/database/collaboration.query.sql.go:6761-6780 | the same for withdrawal |
| PoolSlots.PoolAssignments.ResolveOnePoolSlot | backend/internal/collaboration/ritual_shift_resolution_logic.go:86-171 | a live slot that waits, or has no record yet, is bound to the pick, who is seated and told, exactly when somebody is on; a bound one follows the next row; frozen ones, closed ones and other tasks are untouched; a pool that left on-shift hands over and loses its record |
| PoolSlots.PoolAssignments.RebindResolvedPoolSlot | backend/internal/collaboration/ritual_shift_resolution_logic.go:173-286 | a bound slot is closed if and only if a person has taken its holder off; kept if the holder is on; made to wait if nobody is; else bound to the pick; seats and notices follow exactly |
| PoolSlots.PoolAssignments.EscalateOne | backend/internal/collaboration/ritual_shift_resolution_logic.go:390-430 | the alert goes out exactly when a row came back and its date is within the horizon |
| PoolSlots.PoolAssignments.EscalateUnresolved | backend/internal/collaboration/ritual_shift_resolution_logic.go:374-430 | the loop over the listed records has the specified effect, alerts and count |
| PoolSlots.EscalationClosesWhatWaited | backend/internal/collaboration/ritual_shift_resolution_logic.go:374-430 | exactly the listed records that waited are closed as unrostered, each once |
| PoolSlots.AlertedWithinAWeek | backend/internal/collaboration/ritual_shift_resolution_logic.go:390-430 | the owners are alerted about a slot that waited exactly if its day is at most a week past |
| PoolSlots.EscalatingAgainIsSilent | backend/internal/collaboration/ritual_shift_resolution_logic.go:374-430 | a second escalation closes and announces nothing |
| Reconciliation.LatenessRule | backend/internal/collaboration/ritual_task_state.go:275-316 | an instance is late exactly past its deadline with evidence neither complete nor awaiting the reviewer, and then missed exactly past a known grace window, else overdue; without a definition nothing counts as complete |
| Reconciliation.EvidenceRule | backend/internal/collaboration/ritual_task_state.go:285-291 | verified exactly if everything is approved, submitted exactly if everything awaits the reviewer |
| Reconciliation.WorkRule | backend/internal/collaboration/ritual_task_state.go:303-315 | otherwise, before the deadline: in progress exactly if anything is in, else scheduled until its day, else to do |
| Reconciliation.UnfinishedStaysListed | backend/database/collaboration.query.sql.go:3779-3790 | reconciling an unfinished instance within its grace window leaves it where every sweep after its deadline lists it |
| Reconciliation.DecisionIff | backend/internal/collaboration/ritual_task_state.go:133-185 | which instances reconciliation moves, and to where |
| EvidenceSnapshot.CountsMean | backend/internal/collaboration/ritual_task_state.go:57-96 | what the counts say of the latest submission for each requirement |
| EvidenceSnapshot.LatestIsTheLast | backend/internal/collaboration/ritual_task_state.go:52-55 | the latest submission for a requirement is the last one listed |
| EvidenceSnapshot.LoadTaskEvidenceSnapshot | backend/internal/collaboration/ritual_task_state.go:25-97 | the loops count the latest submission for each requirement |
| Reconciliation.LatenessGrows | backend/internal/collaboration/ritual_task_state.go:275-316 | with fixed evidence lateness only gets worse |
| Reconciliation.RepeatedPassIsSilent | backend/internal/collaboration/ritual_task_state.go:133-213 | reconciling again at the same moment decides nothing |
| Reconciliation.TaskStates.UpdateRitualTaskStateIfUnchanged | backend/database/collaboration.query.sql.go:6244-6267 | writes exactly a row still in the expected state |
| Reconciliation.TaskStates.Pass | backend/internal/collaboration/ritual_reconciliation_logic.go:35-79 | every listed row that does not fail, and that nobody has moved since, ends where it belongs; no other is touched; the counts are how many became overdue and missed |
| Reconciliation.AtMostOverdueThenFinal | backend/internal/collaboration/ritual_task_state.go:133-213 | any number of overlapping sweeps write an instance at most twice, first overdue and then for good |
| Reconciliation.AnnouncedOnceEach | backend/internal/collaboration/ritual_task_state.go:325-375 | two announcements about one instance are of overdue and of missed |
| Reconciliation.AnnouncedWithinAWeek | backend/internal/collaboration/ritual_task_state.go:308-375 | a transition to overdue or missed is announced exactly if a pass made it and the deadline is at most a week past |
| Reconciliation.OverlapLosesTheVerificationIff | backend/database/collaboration.query.sql.go:3779-3790 | for every late instance, evidence, grace and clock, over every interleaving of a sweep and the last approval that read one state, and any number of sweeps later: verified if the approval attempts first; if the sweep does, verified exactly when it found neither everything awaiting the reviewer nor the grace window past and a later sweep gets to the instance; else submitted or missed with everything approved |
| Reconciliation.NewEvidenceHelpsIff | backend/internal/collaboration/evidence_logic.go:337-365 | a later decision on new evidence verifies it exactly when the sweep did not give it up |
| Reconciliation.VerifiedIffSeenApproved | backend/internal/collaboration/ritual_task_state.go:122-213 | however many reconciliations there are and whatever each sees, the instance ends verified exactly when one saw everything approved before any gave it up |
| Reconciliation.TwoApprovalsAtOnce | backend/internal/collaboration/evidence_logic.go:337-365 | two approvals that do not see each other leave everything approved and the instance submitted, whatever sweeps follow |
| Reconciliation.SweepMoveIsFinalIff | backend/internal/collaboration/ritual_task_state.go:275-316 | before approval a sweep's move is terminal exactly when the evidence does not await the reviewer and the grace window is past |
| Reconciliation.IdleSweepLosesNothing | backend/internal/collaboration/ritual_task_state.go:133-185 | a sweep that found nothing to move loses nothing |
| Reconciliation.LostVerificationExample | backend/internal/collaboration/ritual_task_state.go:122-213 | both cases occur |
| Reconciliation.DiscoveredIffListed | backend/database/collaboration.query.sql.go:3779-3817 | an organization is discovered exactly when its own list is not empty, and that list is its oldest candidates in order |
| Reconciliation.CandidateIff | backend/database/collaboration.query.sql.go:3779-3790 | the sweeps list exactly the instances in an open state on which nothing handed in would make them overdue by the rules |
| Reconciliation.OldestDeadlinesFirst | backend/database/collaboration.query.sql.go:4276-4292 | what a limited list leaves out has a later deadline than what it takes, or the same and a higher id |
| Reconciliation.LateIff | backend/database/collaboration.query.sql.go:3779-3790 | the listed categories are those reconciliation can leave an unfinished instance in |
| RitualSchedule.GenerationFillsTheGaps | backend/internal/collaboration/scheduler_logic.go:113-206 | after generation the definition is live on what it was live on and every due date that did not fail |
| RitualSchedule.GenerationCountsTheGaps | backend/internal/collaboration/scheduler_logic.go:113-277 | one instance is created for each date that had none |
| RitualSchedule.GenerationAddsOnlyMissing | backend/internal/collaboration/scheduler_logic.go:113-206 | every new row is such an instance |
| RitualSchedule.UntouchedMeansAsGenerated | backend/internal/collaboration/ritual_schedule_classification.go:30-40 | a live instance is untouched exactly if it still is as it was generated |
| RitualSchedule.GeneratingFillsActive | backend/database/collaboration.query.sql.go:3150-3156 | a sweep fills the plans of the definitions that are not archived |
| RitualSchedule.FirstDayRule | backend/internal/collaboration/scheduler_logic.go:336-343 | it goes on after the waterline, but looks back no further than the window |
| RitualSchedule.SweepCountsTheGaps | backend/internal/collaboration/scheduler_logic.go:19-300 | a sweep over distinct definitions creates the sum of what each lacks |
| RitualSchedule.ClearingTheFuture | backend/internal/collaboration/ritual_logic.go:528-552 | steps 1 and 2 leave no live instance after the cutoff, delete only untouched ones, detach the others, and touch nothing else |
| RitualSchedule.AtMostOneLiveInstance | backend/database/scripts/schema.sql:5568 | any sequence of sweeps, archives, restorations, schedule changes and people's work leaves at most one live instance per definition and date |
| RitualSchedule.ArchivedGainsNothing | backend/database/collaboration.query.sql.go:3150-3156 | until it is restored, an archived definition gains no instance, whatever is swept or changed |
| RitualSchedule.RestoringBringsRunsBack | backend/internal/collaboration/ritual_connect.go:187-203 | restoring makes the definition live on every date of its rule from today to the end of the window |
| RitualSchedule.PreviewAgreesIff | backend/internal/collaboration/ritual_logic.go:410-580 | for every definition, rule and sweep: removals and detachments match exactly if the rule changes or there are none; creations exactly if, unchanged, the rule gives no date, or, changed, what the sweep creates for others equals what it withholds here: everything if archived, else the failing dates and today's instance |
| RitualSchedule.EditThenChangeDoesNothing | backend/internal/collaboration/ritual_logic.go:512-523 | a schedule change to the rule a plain edit has set leaves every instance as it was |
| RitualSchedule.ChangedScheduleIsTheNewRule | backend/internal/collaboration/ritual_logic.go:474-580 | after a change to another rule the definition is live after today on exactly its dates that did not fail, or on none if archived; asked for the rule it has, on the dates it was |
| RitualSchedule.Classify | backend/internal/collaboration/ritual_schedule_classification.go:42-55 | every listed instance goes to exactly one bucket, by whether anybody touched it |
| RitualSchedule.RitualTables.GenerateForDefinition | backend/internal/collaboration/scheduler_logic.go:113-277 | the loop is the specified generation |
| RitualSchedule.RitualTables.ClearFutureInstances | backend/internal/collaboration/ritual_logic.go:528-552 | the classified lists, in any order, have the specified effect, with the reported numbers |
| RitualSchedule.RitualTables.SoftDeleteTasksByIDs | backend/database/collaboration.query.sql.go:5644-5657 | marks exactly the listed rows |
| RitualSchedule.RitualTables.DetachRitualInstancesByIDs | backend/database/collaboration.query.sql.go:1513-1530 | turns exactly the listed rows into standard tasks |
| RitualSchedule.RitualTables.ArchiveRitualDefinition | backend/database/collaboration.query.sql.go:5585-5598 | archiving marks exactly the live instances in a pending state deleted, and changes no other row |
| RitualSchedule.ArchivingTakesWhatIsPending | backend/internal/collaboration/ritual_logic.go:345-350 | so does the request: what has been begun or finished stays |
| Recurrence.ComputeDates | backend/internal/collaboration/scheduler_logic.go:336-385 | the loops yield exactly the due dates, ascending: every n-th day from the first, or the days on the named weekdays |
| Recurrence.WeeklyRuleSurvivesIff | backend/internal/collaboration/scheduler_logic.go:352-367 | a weekly rule gives the same dates however the window is cut into sweeps, if and only if it names its days or nothing is left to generate |
| Recurrence.IntervalRuleSurvivesIff | backend/internal/collaboration/scheduler_logic.go:347-350 | an interval rule does so if and only if the interval is 1 or nothing is left to generate |
| KeysetPaging.WalkIsExact | backend/database/collaboration.query.sql.go:3496-3502 | a keyset walk over a changing table returns sorted rows, each present when read, and every row present throughout |
| KeysetPaging.FixedWalkIsTheSortedTable | backend/database/collaboration.query.sql.go:3496-3502 | on a fixed table the pages concatenate to the sorted table |
| KeysetPaging.FixedWalkEnds | backend/database/collaboration.query.sql.go:3496-3502 | with any limit of at least 1 the walk ends |
| ReviewQueue.FetchIsAPage | backend/internal/collaboration/evidence_review_queue_logic.go:86-151 | the extra row changes nothing, and a cursor is given exactly when something follows |
| ReviewQueue.CountedIsTheJoin | backend/database/collaboration.query.sql.go:330-355 | the shared clause is the join of submission, task and membership with its conditions |
| ReviewQueue.ListedIsTheJoin | backend/database/collaboration.query.sql.go:3470-3494 | the row query adds the project, the state and the submitter |
| ReviewQueue.DecisionTakesItOff | backend/database/collaboration.query.sql.go:5834-5864 | a decision takes its submission off every queue and count, and nothing else |
| ReviewQueue.ProjectQueueIsAPart | backend/database/collaboration.query.sql.go:3494 | the queue of one project is its part of the whole |
| ReviewQueue.LateFirstThenOldest | backend/database/collaboration.query.sql.go:3496-3502 | late instances come first, then the oldest submissions |
| ReviewQueue.PagingSeesEveryLastingSubmissionOnce | backend/database/collaboration.query.sql.go:3439-3502 | whatever happens between pages, every submission that stays listed with its urgency is seen exactly once, in key order |
| ReviewQueue.PagingAFixedQueue | backend/database/collaboration.query.sql.go:3439-3502 | on a fixed queue the pages are the sorted queue |
| ReviewQueue.PagingEnds | backend/internal/collaboration/evidence_review_queue_logic.go:118-151 | on a fixed queue paging ends, whatever page size is asked for |
| ReviewQueue.RecedingIsNeverMissed | backend/database/collaboration.query.sql.go:3470-3502 | in a walk over changing key sets, a row whose key only recedes is seen |
| ReviewQueue.SeenInEveryWalkIffItNeverTurnsUrgent | backend/database/collaboration.query.sql.go:3470-3502 | a submission that stays listed is seen in every walk, whatever else happens to the tables and whatever the page size, if and only if it never becomes urgent between two pages |
| ReviewQueue.CountAgreesIffJoined | backend/database/collaboration.query.sql.go:330-362 | the count is the capped number of rows for every cap exactly when no counted submission lacks a joined row |
| ReviewQueue.BadgeIsExactBelowTheCap | backend/internal/collaboration/evidence_review_queue_logic.go:155-181 | the badge is exact up to the cap, and is_capped means at least a hundred |
| ReviewQueue.DecidedOnce | backend/database/collaboration.query.sql.go:5834-5864 | a submission is decided at most once |
| ReviewQueue.FirstDecisionIsRecorded | backend/database/collaboration.query.sql.go:5834-5864 | of any number of concurrent decisions exactly one is recorded, the first to be submitted |
| TeamAttention.RowsMatchCounts | backend/database/collaboration.query.sql.go:373-437 | for any rows LIMIT keeps, no task is listed twice and each leg shows min(limit, its own count) rows; a short leg is complete |
| TeamAttention.SelectedIsTheJoin | backend/database/collaboration.query.sql.go:373-437 | each leg is the join of task, project, state and membership with its conditions |
| TeamAttention.ProjectsAreCountedOnce | backend/database/collaboration.query.sql.go:439-454 | the third count is the number of live projects the caller supervises |
| TeamAttention.WithinALegByDate | backend/database/collaboration.query.sql.go:5146-5147 | within a leg the earlier date comes first, no date last, then the lower id |
| TeamAttention.SomeAnswer | backend/database/collaboration.query.sql.go:5053-5147 | every request has an answer |
| TeamAttention.LegsMatchTheirCounts | backend/database/collaboration.query.sql.go:5053-5147 | the two queries, each by its own joins, have equally many rows in each leg, one for each task |
| TeamAttention.PlainJoinAgreesIffNothingIsShared | backend/database/collaboration.query.sql.go:5072-5079 | without the lateral LIMIT 1 that would hold if and only if no overdue instance of the team has two workers |
| TeamAttention.NamesTheFirstWorker | backend/database/collaboration.query.sql.go:5072-5079 | an item names the earliest worker, or none exactly when there is none, and is never the caller's own work |
| TeamAttention.OverdueComesFirst | backend/database/collaboration.query.sql.go:5146-5147 | every overdue row precedes every unassigned one |
| TeamAttention.NoProjectsNoAttention | backend/database/collaboration.query.sql.go:439-454 | without a supervised live project both counts are zero and the list would be empty, so skipping the second query changes nothing |
| DocumentAccess.ExpressionIsTheRule | backend/database/docs.query.sql.go:1387-1416 | the COALESCE expression holds exactly when the five-step rule gives access, for any order of grant rows |
| DocumentAccess.OwnerThenOwnGrant | backend/internal/docs/version_logic.go:639-672 | the owner has everything, then one's own grant decides |
| DocumentAccess.DepartmentsGiveTheirBest | backend/internal/docs/version_logic.go:674-702 | then the best grant of one's departments, then visibility |
| DocumentAccess.OrChainLosesExactlyTheDenials | backend/database/docs.query.sql.go:1853-1895 | an OR-chain shows more exactly when a denial overrides something |
| DocumentAccess.CheckAccess | backend/internal/docs/version_logic.go:639-702 | the steps and the loop compute the rule; a missing document and a failing query of the employee's own grant are answered as such, a failing department query leaves out the departments |
| DocumentAccess.DroppedErrorChangesTheAnswerIff | backend/internal/docs/version_logic.go:674-702 | that changes the answer exactly for somebody without ownership or own grant, when a public document's department grants hold no write, or a private one's hold read or write |
| DocumentAccess.LastDenialDenies | backend/database/docs.query.sql.go:1983-1998 | after any sequence of grants and removals, the last act about an employee is a denial if and only if no other grants and no visibility can let them in |
| DocumentAccess.LastActDecides | backend/database/docs.query.sql.go:1983-1998 | a grantee's grant is what the last act about them says |
| DocumentAccess.OrderOfGrantingDoesNotMatter | backend/database/docs.query.sql.go:1983-1998 | histories with the same last acts give everybody the same access |
| DocumentAccess.AccessTable.SetDocumentAccess | backend/database/docs.query.sql.go:1983-1998 | the stored grants are the outcome of all acts so far |
| DocumentVersions.AcceptedSavesFormOneChain | backend/database/docs.query.sql.go:2057-2080 | accepted saves form one chain: each over the version before it, whose content its author had read |
| DocumentVersions.EachBaseOnce | backend/database/docs.query.sql.go:2057-2080 | a base version is accepted at most once |
| DocumentVersions.VersionsFollowTheSaves | backend/internal/docs/version_logic.go:24-77 | version rows are numbered without gaps in save order; the latest is version_count exactly when the initial one was recorded |
| DocumentVersions.StoreGoesThroughIff | backend/internal/docs/logic.go:575-705 | when a save goes through, and that otherwise nothing has happened |
| DocumentVersions.OpeningAndDeleting | backend/database/docs.query.sql.go:2057-2080 | a deleted document changes no more |
| DocumentVersions.DocumentTables.UpdateDocument | backend/database/docs.query.sql.go:2057-2080 | a row comes back exactly for a live document at the base version |
| DocumentVersions.DocumentTables.SaveDocument | backend/internal/docs/logic.go:575-705 | a save is all or nothing and is the specified step |
| ChatPaging.AnchoredReadingIsExact | backend/internal/chat/logic.go:2118-2317 | reading backward and forward from an anchor lays the channel out in strictly increasing id order |
| ChatPaging.AnchoredReadingIsComplete | backend/database/chat.query.sql.go:1656-1662 | every message shown throughout appears exactly once |
| ChatPaging.PagesShowTheChannel | backend/database/chat.query.sql.go:1356-1365 | a page shows only live top-level messages of the channel, on the right side of its token |
| ChatPaging.TokensOfAPage | backend/internal/chat/logic.go:2118-2317 | the older token is the oldest row of a full page, the newer one its newest row or where it started |
| ChatPaging.QuietVisitEnds | backend/internal/chat/logic.go:2118-2317 | in a quiet channel reading from any anchor ends |
| ChatPaging.BackwardIsAFullWalk | backend/database/chat.query.sql.go:1356-1365 | following previous tokens ends only when nothing older is left |
| ChatPaging.ForwardIsAFullWalk | backend/database/chat.query.sql.go:1508-1516 | following next tokens ends only when nothing newer is left |
| ChatPaging.MessageTable.SoftDeleteMessage | backend/database/chat.query.sql.go:2526-2534 | a deleted message is shown nowhere and nothing else changes |
| ChatMembership.PreferenceIsTheJoin | backend/database/chat.query.sql.go:532-562 | the preference is the join of what it was and what was asked; muted absorbs |
| ChatMembership.OrderAndRepetitionDoNotMatter | backend/database/chat.query.sql.go:532-562 | order and repetition of enrolments do not matter |
| ChatMembership.ChoiceCountsFromThenOn | backend/database/chat.query.sql.go:532-562 | a member's own choice replaces the preference and is joined with what is asked afterwards |
| ChatMembership.SelectedIff | backend/database/chat.query.sql.go:1246-1261 | which preferences the WHERE clause selects under three-valued logic |
| ChatMembership.ThreeValuedLogic | backend/database/chat.query.sql.go:1246-1261 | the logic it is evaluated in |
| ChatMembership.NotificationFollowsInvolvement | backend/database/chat.query.sql.go:1246-1261 | muted members are never notified, ensured ones always, enrolled ones for mentions |
| ChatMembership.MembershipTable.EnrollProjectMembersInChannel | backend/database/chat.query.sql.go:532-539 | adds the missing members and touches no other |
| ChatMembership.MembershipTable.EnsureChannelMembership | backend/database/chat.query.sql.go:556-562 | inserts or raises mentions to all |
| Bookings.RangeTestIsExact | backend/database/calendar.query.sql.go:184-192 | the range test is a shared instant for non-empty half-open intervals |
| Bookings.RangesMeetIff | backend/internal/calendar/event_logic.go:99-101 | of any two intervals it says that they share an instant, or that one is empty or reversed and lies strictly inside the other |
| Bookings.AllTakenIffCompatible | backend/internal/calendar/resource_logic.go:16-47 | a list of bookings is accepted as a whole, in any order, exactly when no two for different events and one resource meet |
| Bookings.NeverDoubleBooked | backend/database/calendar.query.sql.go:169-192 | in every reachable table no two events' bookings of a resource share an instant |
| Bookings.NoClashUnlessUpdated | backend/internal/calendar/event_logic.go:216-228 | over any creations and cancellations no two live events holding a resource take place at one instant |
| Bookings.BookAllIff | backend/internal/calendar/event_logic.go:216-228 | an event gets all its resources exactly if each is free, and then one booking for each |
| Bookings.UpdateKeepsFreeIff | backend/internal/calendar/event_logic.go:441-455 | a change of an event's times keeps that exactly when no other holder of its resources takes place during the new times |
| Bookings.CreateKeepsFreeIff | backend/internal/calendar/resource_logic.go:16-47 | an accepted event keeps that exactly when it is free of the other holders' own times, not only of their bookings |
| Bookings.CheckIsExactIff | backend/database/calendar.query.sql.go:184-192 | the check is right for every request exactly when bookings and holders cover the same instants |
| Bookings.RefusedIffOverlapping | backend/internal/calendar/resource_logic.go:16-31 | a booking is refused exactly when it overlaps |
| Bookings.EmptyBookingsDoNotBlock | backend/database/scripts/schema.sql:300 | bookings without duration are all taken, however many events ask for the same moment |
| Bookings.BookingTable.CreateResourceBooking | backend/internal/calendar/resource_logic.go:16-47 | check and insert keep the table free of double bookings |
| SseDebug.CollectInstanceIDs | backend/cmd/tools.go:847-863 | sorted, and exactly the instances of the rows and the explicit one |
| SseDebug.FetchStatuses | backend/cmd/tools.go:865-944 | a status for exactly the requested instances: its listener's, or blank |
| SseDebug.FillMissing | backend/cmd/tools.go:923-934 | instances without a status get the default, others keep theirs |
| SseDebug.ApplyStatuses | backend/cmd/tools.go:991-1015 | every row gets its instance's status or the default, in place, and nothing else changes |
| SseDebug.DebugSSEConnections | backend/cmd/tools.go:538-563 | the whole command: every row ends in place with its own instance's listener columns or blank, never the default, and is printed once under its instance, the instances in order |
| SseDebug.ShownColumns | backend/cmd/tools.go:865-944 | the columns shown are those of the listener's row in the reading that counts, or blank |
| SseDebug.MergeAll | backend/cmd/tools.go:542-550 | the statuses of all listeners override the fetched ones, which stay where there is no listener |
| SseDebug.Group | backend/cmd/tools.go:660-677 | the order is strictly sorted and is the union of both instance sets; the groups are a partition of the rows |
| SseDebug.GroupsPartitionTheRows | backend/cmd/tools.go:697-775 | printed by instance, every connection appears as often as it was read, under its own instance |
| MaestroEnv.RunnerReadsBackIff | frontend/apps/mobile/scripts/run-maestro-suite.sh:32-38 | the runner reads back the intended variables if and only if every value is non-empty and on one line |
| MaestroEnv.ValidatedIsCarried | backend/cmd/seed_maestro.go:1421-1453 | every fixture that passes validation is read back as intended |
| MaestroEnv.ValidateMaestroValues | backend/cmd/seed_maestro.go:1429-1453 | accepts exactly when every value passes, else names one that does not |
| MaestroEnv.Output.PrintMaestroEnv | backend/cmd/seed_maestro.go:1470-1501 | writes the lines of the layout |
| MaestroEnv.ReadEnv | frontend/apps/mobile/scripts/run-maestro-suite.sh:32-38 | the loop is the specified parser |
| MaestroEnv.SeedAndRun | backend/cmd/seed_maestro.go:1421-1501 | validated, printed and read back: the runner gets exactly the seeded variables, or validation refused |
| MaestroEnv.BothKeepTheSameLines | Makefile:234-237 | the Makefile's filters and the runner keep the same lines |
| MaestroEnv.MakefileCarriesUnquotedLines | Makefile:234-237 | lines without a single quote reach the shell's words unchanged |

## Left out

- Isolation anomalies: a guarded operation is one transaction; phantoms past FOR UPDATE, and two department moves at once beyond the separate check and move, are not modelled.
- int4 overflow of counts and version numbers, and the columns no modelled query reads.
- DepartmentCounts.HandlerLaw: the request's row statement itself is taken to succeed or to change nothing; its error replies are not told apart.
- DepartmentStore.DepartmentTables.DeleteDepartment: permission checks and request parsing come before what is modelled.
- RitualSchedule.PreviewAgreesIff: a rule is the JSON text compared by the guard; how a stored rule is brought to that form is not modelled.
- RitualSchedule.RitualTables.GenerateForDefinition: a failing statement costs one date, as in the background sweep; inside the transaction of a request it would undo the whole request.
- Reconciliation.VerifiedIffSeenApproved: the reconciliations write one after the other; overlapping writes are OverlapLosesTheVerificationIff.
- PoolSlots.FinishedIsFollowedUp: passes that read the same holder, with no withdrawal followed by a new binding in between.
- Bookings.UpdateKeepsFreeIff: series edits and exceptions of recurring events.
- RitualSchedule.RestoringBringsRunsBack: for the rules Recurrence models, and when no statement of the generation fails.
- ReviewQueue.SeenInEveryWalkIffItNeverTurnsUrgent: the submission's own timestamp does not change.
- CompareAndSet.EveryChangeIsAnnouncedOnce: a pass that stops between writing and announcing loses the announcement, in the source as here.
- Recurrence.ComputeDates: whole days only, without the clamp of the window's start; the monthly rule and time zones are not modelled.
- RitualSchedule.AtMostOneLiveInstance: sweeps do not overlap each other here; the unique index is what covers that case.
- PoolSlots.PoolAssignments.ResolveOnePoolSlot: a single pass with a readable rota; failing reads leave the slot to the next pass, and the round-robin waterline is not modelled.
- PoolSlots.LosersStayOnTheTask: passes that bind one waiting slot, without other statements on it in between.
- ReviewQueue.FetchIsAPage: the base64 cursor text is not modelled, the cursor is the sort tuple.
- Full-text scores, snippets, JSON aggregation, reaction and reply columns.
- ChatPaging.AnchoredReadingIsExact: access checks on the channel are not modelled.
- MaestroEnv.Output.PrintMaestroEnv: the wording of the comment lines and the seeded constants are parameters, assumed to be on one line; a block's Printf calls are a loop over its lines.
- MaestroEnv.MakefileCarriesUnquotedLines: one direction only; with a quote inside a line the shell goes on to expand what follows, which is not modelled.
- SseDebug.DebugSSEConnections: the connection query and its filters are an input, and the --json output is the rows as they end; failing queries are not modelled.
- SseDebug.Group: sort.Strings is an insertion sort on byte sequences; the printed text is not modelled.
- Backlog draining by reconciliation, order within a truncated team attention leg, and paging of queries whose cursor does not match their order are not claimed, because they do not hold.
