# Wachd, modelled and proved

Wachd receives alerts, opens incidents, calls people, and remembers what it learnt in a graph. Its hard
parts are small concurrent protocols over shared database rows, and the calendar, text and counter
arithmetic around them. This project models them in Dafny and proves what they promise.

`dafny verify dfyconfig.toml` checks everything.

## How it is modelled

* A database table is a map in a class field. A statement or transaction is one atomic step: a function
  on the table, and a method of the class that is proved to leave exactly that function's table.
* A concurrent protocol is a state machine whose actions are those steps, taken by any number of clients
  in any order. Its theorems are about every state of every run.
* A procedure that loops or updates is a method with its loop, proved against a specification.
* Definitions that theorems speak through are pinned by lemmas named `...Exactly`, which say in the columns
  and constants of the source what a statement writes, what a predicate holds of, or what a ranking is.
* Times are integers or reals on one clock, scores are reals, identifiers are integers with 0 for the nil
  UUID. What a clock, a random source, the network or a password check returns is a parameter.

| part | files |
|---|---|
| knowledge graph | `GraphModel`, `GraphStore`, `Subgraph`, `TwoPhase`, `WriteBack` |
| similarity search | `Text`, `Similarity`, `SimilarSearch` |
| incidents and de-duplication | `IncidentTable`, `IncidentStore`, `Dedup` |
| escalation | `EscalationPolicy`, `Escalation`, `EscalationWorker`, `EscalationTick` |
| delayed notifications | `NotificationTable`, `Notifications` |
| on-call schedules | `OnCall`, `Resolvers` |
| rate limiting | `RateLimit` |
| Kubernetes health | `K8sHealth`, `K8sHistory` |
| team access, lockout, bootstrap password | `TeamAccess`, `Lockout`, `AdminPassword` |
| shared | `Common`, `Arithmetic`, `Segments`, `KeyPaths`, `StableSorting`, `Queries` |

## What turned out false, and when it holds

* Catch-up of an escalation ends at the largest due step, at every clock reading at which the incident is
  polled, for exactly the policies that pass a finite check of their delays: repeats are limited or a cycle
  costs time; and no allowed step after the first is due before its predecessor, unless that predecessor is
  due within the first minute, in which nothing is polled (`EscalationPolicy.CatchUpExactly`). Layers after
  0, 10 and 5 minutes get stuck below a step that is due (`EscalationPolicy.StuckPolicy`).
* A poll looks at the 200 oldest open incidents. An incident is in every batch exactly when fewer than 200
  others fired no later, and in none exactly when 200 fired strictly earlier (`Escalation.BatchExactly`);
  in a table of 201 the last one is left out (`Escalation.StarvedIncident`).
* The two on-call resolvers disagree exactly when the member whose turn it is in the first layer on duty is
  the nil UUID while another layer on duty has a user (`Resolvers.AgreeExactly`, and
  `Resolvers.ResolversDisagree` for such a rotation).
* Window ends are parsed without a range check, so "24:00" and "35:30" get through. A window is read as meant
  exactly when its ends fit the week (`OnCall.ReadAsMeantExactly`, and `OnCall.EndOfWeekExactly` for a start
  in range); Monday 10:00 to Sunday "35:30" is misread (`OnCall.MisreadWindow`).
* Permanent edges join permanent nodes because the writers are disciplined. The store alone keeps this in an
  edge upsert exactly when no permanent edge to a pending node is asked for, and in every other statement
  (`TwoPhase.UpsertEdgeCleanExactly`, `TwoPhase.NodeStatementsKeepClean`); it accepts such an edge
  (`TwoPhase.StoreAcceptsDirtyEdge`).
* The role an identity ends up with does not depend on the order in which the unordered query returns its
  grants exactly when no team is granted two roles (`TeamAccess.OrderIrrelevantExactly`); two groups that map
  one team to two roles leave it open (`TeamAccess.RoleDependsOnOrder`).
* Two services whose names hold only stop words count as the same service
  (`Similarity.FieldScoreLaws`, the case of equal empty token sets under an exact match), as "alert" and
  "error" do (`Similarity.StopWordsMatch`).
* The comment at `internal/store/notification_rules.go:212-213` says that queued notifications are cancelled
  when an incident is acknowledged or resolved. Only the acknowledgement does it (`cmd/server/main.go:1321`).
  A row queued before a resolution waits on and fires once the incident is reopened
  (`Notifications.ResolutionDoesNotCancel` is such a run). In general a row not sent yet can still fire
  exactly when it is not cancelled (`Notifications.CanFireExactly`), a cancelled one never does
  (`Notifications.CancelledNeverFires`), and one that waits fires only through a later state in which its
  incident is open (`Notifications.WaitingFiresWhenOpen`).

## Model

| member | source | states |
|---|---|---|
| GraphStore.PostgresStore.UpsertNode | internal/graph/postgres_store.go:69-125 | The insert-or-merge of a node, every error included, leaves exactly the specified tables and keeps the schema's constraints |
| GraphStore.PostgresStore.UpsertEdge | internal/graph/postgres_store.go:130-192 | The same for edges, under the foreign keys |
| GraphStore.PostgresStore.PromoteNode | internal/graph/postgres_store.go:495-555 | The promotion transaction: the node, and its edges both of whose ends are then permanent |
| GraphStore.PostgresStore.DeleteNode | internal/graph/postgres_store.go:558-582 | Deleting a node takes its edges with it and nothing else |
| GraphModel.UpsertNodeKeepsConstraints | internal/store/schema.sql:475-477 | After any upsert, one node at most has a given team, type and external id, and no edge dangles |
| GraphModel.UpsertEdgeKeepsConstraints | internal/store/schema.sql:494-496 | After any edge upsert, ends are nodes of the edge's team and no two edges have the same team, ends and type |
| GraphModel.PromoteNodeKeepsConstraints | internal/graph/postgres_store.go:495-555 | Promotion keeps both uniqueness constraints and the foreign keys |
| GraphModel.DeleteNodeKeepsConstraints | internal/store/schema.sql:494-495 | Cascading deletion leaves no edge without its nodes |
| GraphModel.UpsertNodeErrs | internal/graph/postgres_store.go:69-92 | A node upsert fails exactly without a team, for another team's draft, for a blank label, or for a used id with no row to merge with |
| GraphModel.UpsertNodeInserts | internal/graph/postgres_store.go:86-117 | Without a row of that team, type and non-blank external id one row is added, column by column, pending by default |
| GraphModel.UpsertNodeMerges | internal/graph/postgres_store.go:106-115 | With one, that row takes label and properties and is permanent if either is; all other rows stay |
| GraphModel.UpsertEdgeErrs | internal/graph/postgres_store.go:130-158 | An edge upsert fails exactly for a bad team, missing, equal or foreign ends, or a used id with no row to merge with |
| GraphModel.UpsertEdgeExactly | internal/graph/postgres_store.go:159-186 | Afterwards the one edge of that key has the draft's weight, or 1 without a positive one, and is permanent if either is; all else stays |
| GraphModel.PromoteNodeExactly | internal/graph/postgres_store.go:511-548 | The node becomes permanent, and those of its edges whose other end was permanent; all else stays |
| GraphModel.DeleteNodeExactly | internal/graph/postgres_store.go:558-582 | Exactly the node and the edges that touch it go; all other rows stay |
| GraphModel.UpsertNodeIdentity | internal/graph/postgres_store.go:93-115 | Two upserts with one external id meet one row: same id, the second one's label and properties, permanent if either asked for it, other rows untouched |
| Subgraph.LevelSound | internal/graph/postgres_store.go:224-247 | Every row of the recursive query carries a simple path from the root over permanent edges and nodes |
| Subgraph.LevelComplete | internal/graph/postgres_store.go:224-247 | Every simple path is the path of a row |
| Subgraph.LinkedExactly | internal/graph/postgres_store.go:224-247 | One step of a walk: a permanent edge of the team in either direction, to a permanent node of the team |
| Subgraph.CutLoops | internal/graph/postgres_store.go:200-330 | Any walk can be cut down to a simple path with the same end that is no longer |
| Subgraph.TraversedExactly | internal/graph/postgres_store.go:200-330 | The query takes exactly the permanent edges within the distance that have an end strictly nearer |
| Subgraph.NodesExactly | internal/graph/postgres_store.go:200-330 | The root and the joined nodes are exactly the nodes within the distance over walks that may repeat nodes |
| Subgraph.Collect | internal/graph/postgres_store.go:291-303 | The two maps filled from the rows hold exactly those nodes and edges |
| Subgraph.GetSubgraph | internal/graph/postgres_store.go:200-330 | Errors exactly for nil ids or an unknown root; else both lists are complete, without repetition and by age; a negative depth is 0 |
| TwoPhase.JobStepKeeps | cmd/worker/graph.go:96-227 | Each store call of a resolved-incident job, failing or not, keeps the graph clean and the job's nodes permanent or deleted |
| TwoPhase.GraphIsClean | cmd/worker/graph_services.go:26-59 | In every reachable state edges are permanent and join two distinct permanent nodes, and keys name one row |
| TwoPhase.NeverDemoted | internal/graph/postgres_store.go:106-115 | In no run does a permanent node or edge become pending again, or a known id return as another team's |
| TwoPhase.UpsertEdgeCleanExactly | internal/graph/postgres_store.go:130-192 | An edge upsert on a clean graph leaves permanent edges between permanent nodes exactly when it asks for no permanent edge to a pending node |
| TwoPhase.NodeStatementsKeepClean | internal/graph/postgres_store.go:495-582 | Node upserts, promotions and deletions never leave a permanent edge at a pending node |
| TwoPhase.StoreAcceptsDirtyEdge | internal/graph/postgres_store.go:130-192 | A clean graph and an edge the store accepts that make it unclean |
| WriteBack.UndisturbedJob | cmd/worker/graph.go:96-227 | A job left alone ends with the incident's node permanent and linked to every match, to its service's node, and to the deployment it blames |
| WriteBack.FailuresAreOpen | cmd/worker/graph.go:96-227 | A failing call writes nothing; it ends a job without a permanent node, and else loses only its own edges |
| WriteBack.ClientsAct | internal/graph/postgres_store.go:495-582 | A manual promotion makes a node permanent, a deletion removes it |
| WriteBack.PendingWriteIsPending | cmd/worker/graph.go:65-89 | The node of an incident in flight is pending, unless it was permanent already |
| Text.TokensExactly | internal/graph/similarity.go:322-342 | A token is a maximal run of letters and digits of the lower-cased text that is no stop word, and conversely |
| Text.DiceLaws | internal/graph/similarity.go:300-320 | The score is in [0, 1], one for equal non-empty sets only, zero for disjoint ones only, and symmetric |
| Text.TokenSimilarity | internal/graph/similarity.go:300-320 | The counting loop over one map computes that score, whatever order the map is iterated in |
| Text.PhraseExactly | internal/graph/similarity.go:344-357 | The sorted, joined phrase is the same for equal token sets and differs for different ones |
| Text.LessExactly | internal/graph/similarity.go:354 | The order of the tokens: the first difference decides, a proper prefix comes first |
| Text.NormalizePhrase | internal/graph/similarity.go:344-357 | The phrase lists every token once, in Go's string order |
| Similarity.FieldSimilarity | internal/graph/similarity.go:275-298 | The four-way comparison of a field agrees with a score that does not depend on map order |
| Similarity.FieldScoreLaws | internal/graph/similarity.go:275-298 | A field scores in [0, 1], and one exactly when both texts have the same tokens (for prose, at least one) |
| Similarity.StopWordsMatch | internal/graph/similarity.go:275-298 | "alert" and "error" have full marks as service names |
| Similarity.WeightedIsMean | internal/graph/similarity.go:111-128 | The points lie between nothing and the available weight, and equal it exactly when every signal has full marks |
| Similarity.ClampIsIdle | internal/graph/similarity.go:142 | The mean is in [0, 1] before it is clamped, so clamping never changes it; it is one exactly for full marks everywhere |
| Similarity.WeightsExactly | internal/graph/similarity.go:58-109 | The mean is that of the seven texts with weights .20, .25, .20, .15, .10, .05 and .05, blank source texts left out, the service alone matched as a name |
| Similarity.ContainedNameScores | internal/graph/similarity.go:283-295 | Service names of different tokens score 0.75 exactly when one non-empty phrase contains the other, else by their tokens |
| Similarity.RoundScoreLaws | internal/graph/similarity.go:386-388 | Rounding moves a score by half a thousandth at most, keeps [0, 1] and never reverses two scores |
| Similarity.ScoreInUnit | internal/graph/similarity.go:47-157 | Every score is in [0, 1] |
| Similarity.RepetitionScoresOne | internal/graph/similarity.go:47-157 | A node that repeats the source's texts scores one, if each text says something |
| Similarity.ScoreNodeSimilarity | internal/graph/similarity.go:47-157 | The loop over the seven weighted signals computes the score |
| SimilarSearch.FindSimilar | internal/graph/postgres_store.go:338-406 | Errors as in the source; else a sorted top-k of the permanent other nodes of the type at or above the threshold, none omitted that ranks before one returned, all scores in [0, 1] |
| SimilarSearch.TopIsRanking | internal/graph/postgres_store.go:362-405 | In raw terms: falling scores and, among equals, falling creation times; min(limit, qualifying) nodes; none left out that scores higher than one taken, or equal and newer |
| SimilarSearch.NoBetterAnswer | internal/graph/postgres_store.go:391-403 | The k-th match of one answer never ranks before the k-th of another answer to the same search |
| SimilarSearch.AnswersAgree | internal/graph/postgres_store.go:391-403 | Whatever order the database returns rows in, the answer has the same length, scores and creation times |
| IncidentTable.PutExactly | internal/store/schema.sql:58-63 | Checking the one written row refuses exactly the writes that break uniqueness |
| IncidentTable.StatementKeepsUnique | internal/store/schema.sql:58-63 | Every statement on any row in any status leaves at most one active incident per team and fingerprint |
| IncidentTable.OnlyIncrementMovesSteps | internal/store/incidents.go:364-374 | The compare-and-set writes exactly when its condition holds; nothing else moves escalation_step or fired_at |
| IncidentTable.UniqueExactly | internal/store/schema.sql:58-63 | The index says: of two incidents of one team and fingerprint at least one is resolved |
| IncidentTable.CreateExactly | internal/store/incidents.go:35-78 | An insert adds an open incident at step 0, or is refused exactly for a used id or an unresolved incident of its fingerprint |
| IncidentTable.AcknowledgeExactly | internal/store/incidents.go:192-208 | A written acknowledgement leaves the row acknowledged with time and assignee, its other columns and all other rows unchanged |
| IncidentTable.SnoozeExactly | cmd/server/main.go:1484-1493 | A written snooze leaves the row snoozed until then, its other columns and all other rows unchanged |
| IncidentTable.ResolveExactly | cmd/server/main.go:1362-1372 | A resolution leaves the row resolved with its time, its other columns and all other rows unchanged |
| IncidentTable.ReopenExactly | cmd/server/main.go:1417-1430 | A written reopening leaves the row open with times and assignee cleared, its other columns and all other rows unchanged |
| IncidentTable.ResolveByFingerprintExactly | internal/store/incidents.go:424-436 | Exactly the unresolved incidents of that team and fingerprint become resolved |
| IncidentTable.IncrementExactly | internal/store/incidents.go:364-374 | One is added exactly for an open row of the team at the step that was read |
| IncidentStore.IncidentDB.CreateIncident | internal/store/incidents.go:35-78 | An insert adds an open incident or reports the duplicate and changes nothing |
| IncidentStore.IncidentDB.AcknowledgeIncident | internal/store/incidents.go:192-208 | The unguarded update to acknowledged, refused only by the index |
| IncidentStore.IncidentDB.SnoozeIncident | cmd/server/main.go:1469-1503 | Minutes out of 1 to 10080 and unknown incidents are refused and change nothing; else the row is snoozed until then, unless the index refuses |
| IncidentStore.IncidentDB.ResolveIncident | cmd/server/main.go:1356-1377 | Unknown incidents are refused and change nothing; any other becomes resolved, which the index never refuses |
| IncidentStore.IncidentDB.ReopenIncident | cmd/server/main.go:1411-1435 | Unknown incidents are refused and change nothing; any other becomes open with times and assignee cleared, unless the index refuses |
| IncidentStore.IncidentDB.ResolveIncidentByFingerprint | internal/store/incidents.go:424-436 | Afterwards no incident of the fingerprint is active |
| IncidentStore.IncidentDB.FindOpenIncidentByFingerprint | internal/store/incidents.go:379-420 | The answer is the whole set of active incidents of the fingerprint: one, or none |
| IncidentStore.IncidentDB.IncrementEscalationStep | internal/store/incidents.go:364-374 | True exactly for the caller that finds the row open at the step it read |
| Dedup.OneActivePerFingerprint | cmd/server/main.go:842-904 | In every interleaving of webhooks and life-cycle updates there is one active incident per team and fingerprint at most |
| Dedup.AnswersNameActiveIncidents | cmd/server/main.go:842-904 | Every accepted webhook names an incident of its fingerprint that was active at some point of the call |
| Dedup.ResolutionMakesRoom | cmd/server/main.go:842-904 | Once its fingerprint is resolved, a waiting request opens a new incident and names it |
| Dedup.RaceIsReachable | internal/store/incidents.go:69-75 | A run in which two handlers both find nothing; without the index the second insert would break uniqueness |
| Dedup.DeduplicatesAlone | cmd/server/main.go:842-858 | With an unresolved incident of its fingerprint, a request is answered with it and creates nothing |
| Dedup.GoesOnToInsert | cmd/server/main.go:845-849 | Without one, or when the look-up fails, it goes on to insert |
| Dedup.InsertsOrFindsWinner | cmd/server/main.go:876-892 | The insert creates an open incident and names it, or meets an unresolved one, changes nothing, and names that one |
| EscalationPolicy.LimitExactly | cmd/worker/helper.go:690-702 | The two repeat checks allow exactly the steps up to N-1 without an interval, N*(MaxRepeats+1)-1 with both, all with an interval alone |
| EscalationPolicy.ThresholdIsRunningSum | cmd/worker/helper.go:706-710 | The div/mod threshold is the first delay plus the sum of the per-step waits |
| EscalationPolicy.MonotoneExactly | cmd/worker/helper.go:706-710 | Thresholds never decrease exactly for ordered delays whose next cycle does not start before the last |
| EscalationPolicy.BoundedSteps | cmd/worker/helper.go:690-714 | If repeats are limited or cycles cost time, the steps due at any moment are bounded |
| EscalationPolicy.NeverSettles | cmd/worker/helper.go:690-714 | With unlimited repeats and free cycles, an ordered policy takes a step at every poll for ever |
| EscalationPolicy.CatchUp | cmd/worker/helper.go:657-755 | Once an incident is old enough to be polled, polling at one clock reading reaches the largest due and allowed step, one step a poll, and stays there |
| EscalationPolicy.CatchUpExactly | cmd/worker/helper.go:657-755 | Catch-up works at every clock reading at which the incident is polled for exactly the policies that pass a finite check of their delays |
| EscalationPolicy.OrderedCatchesUp | cmd/worker/helper.go:690-714 | Policies with ordered delays pass the check exactly if repeats are limited or cycles cost time |
| EscalationPolicy.StuckPolicy | cmd/worker/helper.go:690-714 | A three-layer policy that stays at step 0 while step 2 is due |
| Escalation.BatchExactly | internal/store/incidents.go:279-326 | An incident is in every batch exactly when fewer than 200 others fired no later, and in none exactly when 200 fired strictly earlier |
| Escalation.StarvedIncident | internal/store/incidents.go:279-326 | In a table of 201 open incidents the last one to fire is in no batch |
| Escalation.ClaimKeeps | cmd/worker/helper.go:740-747 | A won compare-and-set claims a step nobody claimed before and keeps the protocol's invariant |
| Escalation.ClaimsAreForever | cmd/worker/helper.go:686-754 | In every run escalation_step never decreases, and a step's claim, once made, never changes hands |
| Escalation.NextGrows | internal/store/incidents.go:364-374 | A new claim is made on an open row and moves it by exactly one step |
| Escalation.TakenStepsWereDue | cmd/worker/helper.go:706-714 | In every reachable state each taken step is within the limit and its threshold has passed |
| Escalation.NotificationsBounded | cmd/worker/helper.go:686-754 | At most one notification a step: N-1 in all without repeats, N*(MaxRepeats+1)-1 with limited ones |
| Escalation.AllAccounted | cmd/worker/helper.go:737-754 | In every run each claimed step with somebody on call is notified, in its worker's hand, or lost to a crash, and a lost one is never notified |
| Escalation.LostByCrash | cmd/worker/helper.go:737-754 | A step is lost only when the worker that has it in hand crashes |
| Escalation.CoveredStepsNotified | cmd/worker/helper.go:737-754 | With no step in hand, the covered steps not lost have been notified, each exactly once, and no others |
| Escalation.AcknowledgedStaysPut | internal/store/incidents.go:364-374 | After a written acknowledgement, until a reopening of that incident, its step does not move, however stale the workers' copies |
| EscalationTick.UndisturbedTick | cmd/worker/helper.go:657-755 | A worker that polls and is left alone leaves exactly the rows and the notifications of one tick of the loop |
| EscalationTick.DueInTime | cmd/worker/helper.go:706-714 | Time alone makes an allowed next step of an open incident due and the incident old enough to be polled |
| EscalationTick.NextStepExactly | cmd/worker/helper.go:669-755 | From every reachable state the workers alone can notify, or with nobody on call skip, an open incident's next step exactly if it is within the limit and its threshold has passed |
| EscalationWorker.CheckEscalationForIncident | cmd/worker/helper.go:669-755 | One look at a stale copy takes the step exactly when it is due, allowed and still free, and calls exactly if covered too |
| EscalationWorker.CheckEscalations | cmd/worker/helper.go:657-667 | One tick moves exactly the due incidents of the batch by one step and calls exactly the covered ones |
| EscalationWorker.IncidentCatchesUp | cmd/worker/helper.go:657-755 | An incident in every batch ends at its largest due step, whoever is on call |
| NotificationStore.NotificationDB.GetDuePendingNotifications | internal/store/notification_rules.go:149-202 | Claims due unlocked rows, earliest first, all of them up to 100, and marks exactly those |
| NotificationStore.NotificationDB.CancelPendingNotificationsForIncident | internal/store/notification_rules.go:214-221 | Afterwards no row of the incident waits, and none is both sent and cancelled |
| NotificationStore.NotificationDB.FirePendingNotifications | cmd/worker/main.go:658-681 | One tick fires, once each, exactly the claimed rows whose incident is open and whose user exists |
| Notifications.ClaimsAreForever | internal/store/notification_rules.go:149-202 | In every run a row's claimant, schedule and incident never change, so one worker at most claims it |
| Notifications.FiringsWereOpen | cmd/worker/main.go:664-670 | Each firing rests on a status read that found its incident open |
| Notifications.FiresOnceAndInTime | cmd/worker/main.go:658-681 | A row fires at most once, after its claim, never before its time, and is never both sent and cancelled |
| Notifications.AckSilences | cmd/server/main.go:1313-1324 | If an incident stays not open, only status reads from before that can still fire, even if the cancelling statement failed |
| Notifications.CancelledNeverFires | internal/store/notification_rules.go:214-221 | A row once cancelled fires in no continuation of a run |
| Notifications.CanFireExactly | internal/store/notification_rules.go:149-221 | From any reachable state, a row not sent yet fires in some continuation exactly if it is not cancelled, whatever its incident's status |
| Notifications.WaitingFiresWhenOpen | cmd/worker/main.go:658-681 | A row that waits at one place of a run and fires later does so through a later state in which its incident is open |
| Notifications.ResolutionDoesNotCancel | cmd/server/main.go:1362-1388 | A run in which a row waits on after its incident is resolved, and has fired in the end |
| NotificationTable.CancelledExactly | internal/store/notification_rules.go:214-221 | Exactly the incident's rows neither sent nor cancelled get the cancellation time; every other row stays |
| NotificationTable.ClaimedExactly | internal/store/notification_rules.go:149-202 | Exactly the claimed rows get the sending time |
| Notifications.CancelledByItsIncident | internal/store/notification_rules.go:214-221 | In runs a row becomes cancelled only by a cancellation for its own incident, while it waits |
| Notifications.CancellationIsFinal | internal/store/notification_rules.go:214-221 | After a cancellation for an incident none of its rows not sent by then fires in any continuation |
| Notifications.AcknowledgedStaysSilent | cmd/server/main.go:1313-1324 | After a written acknowledgement, until a reopening of that incident, no status read leads to a firing |
| Notifications.ReadStatusExactly | cmd/worker/main.go:664-676 | A worker goes on to fire exactly if the read succeeds, the incident is open and the user is known |
| Notifications.DelayIsKept | internal/store/notification_rules.go:135-144 | A row queued with a delay does not fire before the delay is over |
| OnCall.WindowIsCyclic | internal/oncall/schedule.go:477-495 | A minute is covered exactly when it is nearer after the start, round the week, than the end is |
| OnCall.WindowLength | internal/oncall/schedule.go:477-495 | A window covers (end - start) mod 10080 minutes of the week |
| OnCall.SwapIsComplement | internal/oncall/schedule.go:477-495 | Swapping distinct ends covers exactly the rest of the week |
| OnCall.ReadAsMeantExactly | internal/oncall/schedule.go:477-519 | For ends anywhere, as parsing lets them through, the cyclic rule holds at every minute exactly when both fit the week |
| OnCall.EndOfWeekExactly | internal/oncall/schedule.go:477-519 | With the start in range: exactly for ends in range, and for ends a whole number of weeks away unless the start is the week's first minute |
| OnCall.MisreadWindow | internal/oncall/schedule.go:477-519 | Monday 10:00 to Sunday "35:30" covers Monday noon and is misread |
| OnCall.DayNumbers | internal/oncall/schedule.go:501-510 | Monday to Sunday are 0 to 6 |
| OnCall.RestrictionExactly | internal/oncall/schedule.go:453-473 | By day number: weekdays are 0 to 4, weekends 5 and 6, custom any window by the cyclic rule, everything else always |
| OnCall.NextTurn | internal/oncall/schedule.go:440-446 | One interval later it is the next member's turn, mod n |
| OnCall.TurnTimeOfRound | internal/oncall/schedule.go:440-446 | Any n intervals give each position exactly one interval, wherever they start |
| OnCall.RotationIsFair | internal/oncall/schedule.go:440-446 | Any k*n intervals give each position exactly k intervals, aligned or not |
| Resolvers.SortedLayersOrder | internal/oncall/schedule.go:138-155 | A permutation with positive orders ascending and all others last, equal ones in original order |
| Resolvers.OnDutyExactly | internal/oncall/schedule.go:426-439 | A layer is on duty when it has members and its restriction holds, spelled out by day and window |
| Resolvers.TurnExactly | internal/oncall/schedule.go:414-450 | Member k has the turn in the k-th interval of every round from the anchor, the first before it; the interval is a week unless hours are given |
| Resolvers.ResolveLayered | internal/oncall/schedule.go:414-450 | The early-return loop finds the turn of the first layer on duty; no layers is an error |
| Resolvers.ResolveLayeredAllLayers | internal/oncall/schedule.go:157-189 | One answer a layer, in sorted order, nil for those not on duty |
| Resolvers.AgreeExactly | internal/oncall/schedule.go:138-189 | The resolvers agree exactly unless the member whose turn it is in the first layer on duty is nil while another layer on duty has a user |
| Resolvers.ResolversDisagree | internal/oncall/schedule.go:414-450 | A rotation of two layers on which one resolver finds nobody and the other a user |
| Resolvers.ResolversAgree | internal/oncall/schedule.go:414-450 | Without nil members both resolvers name the same user at every time |
| Resolvers.OnCallUserExactly | internal/oncall/schedule.go:414-450 | Without sorting: the layer that answers is on duty, no layer on duty precedes it, and ties go to the earlier |
| RateLimit.WebhookIPLimiter.Allow | cmd/server/main.go:188-198 | A call takes a token if one is left, and notes the client either way |
| RateLimit.WebhookIPLimiter.Cleanup | cmd/server/main.go:200-210 | Forgets exactly the clients not seen for more than ten minutes |
| RateLimit.PruningIsInvisible | cmd/server/main.go:172-210 | On every sequence of calls and clean-ups, forgetting changes no answer |
| RateLimit.TokensStep | cmd/server/main.go:188-198 | An admission costs a token, and tokens come one a second |
| RateLimit.WindowBound | cmd/server/main.go:169-198 | Any T seconds admit at most 20 + T calls of one address |
| RateLimit.IdleClientIsAdmitted | cmd/server/main.go:188-198 | Of calls at once exactly those are admitted for which a token is left or has come back, one a second, up to 20; a new address has 20 |
| KeyPaths.PrefixExactly | cmd/agent/collectors/k8shealth/collector.go:412-421 | Matching the string prefix of a pod matches exactly the keys under that pod |
| K8sHealth.Collector.MarkSeen | cmd/agent/collectors/k8shealth/collector.go:395-403 | True the first time only, and known afterwards |
| K8sHealth.Collector.ClearPod | cmd/agent/collectors/k8shealth/collector.go:412-421 | Deleting while ranging over the map forgets exactly the keys with the pod's prefix |
| K8sHealth.Collector.ReconcilePod | cmd/agent/collectors/k8shealth/collector.go:183-227 | Fires and remembers the first unknown failure; on full recovery clears the pod instead |
| K8sHealth.Collector.ReconcileNode | cmd/agent/collectors/k8shealth/collector.go:301-340 | Reports or forgets condition by condition, in order |
| K8sHealth.Collector.CheckPending | cmd/agent/collectors/k8shealth/collector.go:357-390 | Reports each pod pending for the threshold unless it is known |
| K8sHistory.RecoveryIsLocal | cmd/agent/collectors/k8shealth/collector.go:412-421 | Clearing one pod leaves the keys of every other pod and node alone |
| K8sHistory.PodLookExactly | cmd/agent/collectors/k8shealth/collector.go:183-227 | A running pod whose containers, at least one, are all ready is cleared; any other fires nothing exactly when all its failures are known |
| K8sHistory.ContainerTurn | cmd/agent/collectors/k8shealth/collector.go:189-225 | What fires first: the waiting reason, with its kind and key, then the memory kill, then the next container |
| K8sHistory.ConditionExactly | cmd/agent/collectors/k8shealth/collector.go:301-340 | Which statuses of which conditions are bad, under which key, and what is fired or forgotten for each |
| K8sHistory.PendingExactly | cmd/agent/collectors/k8shealth/collector.go:365-388 | A pod is reported from the threshold on, once |
| K8sHistory.OomKeyExactly | cmd/agent/collectors/k8shealth/collector.go:210-212 | Two out-of-memory kills share a key exactly if pod, container and start time agree |
| K8sHistory.OnceBetweenRecoveries | cmd/agent/collectors/k8shealth/collector.go:183-227 | Over any observations a failure fires at most once between full recoveries of its pod, and at most once more than it recovers |
| K8sHistory.DrainsExactly | cmd/agent/collectors/k8shealth/collector.go:183-227 | k unknown failures of an unchanged bad pod take exactly k looks, each firing another one, and then nothing fires |
| K8sHistory.EventsAreTransitions | cmd/agent/collectors/k8shealth/collector.go:301-340 | The events of a node condition are its turns from good to bad, whatever else is observed in between |
| TeamAccess.AccessDB.SyncTeamAccess | internal/store/auth.go:139-239 | Afterwards the identity has exactly the teams of its grants, each with the role of its last grant; other identities are untouched |
| TeamAccess.Idempotent | internal/store/auth.go:139-239 | Running it again with the same grants in the same order changes nothing |
| TeamAccess.SyncedExactly | internal/store/auth.go:149-183 | Afterwards the identity has exactly the teams some mapping grants: one of its trimmed groups, for this provider or for none and entra |
| TeamAccess.OrderIrrelevantExactly | internal/store/auth.go:155-183 | Every order in which the query may return the grants gives the same access exactly when no team is granted two roles |
| TeamAccess.RoleDependsOnOrder | internal/store/auth.go:155-183 | Two mappings whose grants may leave one member as admin or as viewer |
| Lockout.LocalUser.AuthenticateLocal | internal/auth/handler.go:362-394 | Unknown, locked, rejected or accepted, and the counter and lock each leaves |
| Lockout.LockoutBound | internal/auth/handler.go:368-389 | Within T of a failed check at most M + floor(T/D) wrong passwords are checked |
| Lockout.BoundIsReached | internal/auth/handler.go:368-389 | A series of attempts that reaches the bound |
| AdminPassword.ValidateDefaultPolicy | cmd/server/main.go:3011-3041 | Accepts exactly 12 characters or more with one of each class |
| AdminPassword.Shuffle | cmd/server/main.go:2996-3004 | The in-place swaps compute the arrangement the draws determine |
| AdminPassword.ShuffledKeepsAll | cmd/server/main.go:2996-3004 | For all draws, the characters stay the same, each as often as before |
| AdminPassword.EveryArrangementIsDrawn | cmd/server/main.go:2996-3004 | For every arrangement of the characters there are draws that give it |
| AdminPassword.DrawsAreDetermined | cmd/server/main.go:2996-3004 | Different draws give different arrangements of distinct items |
| AdminPassword.CharsetsExactly | cmd/server/main.go:2965-2969 | All letters and digits are drawn from but I, O, i, l, o, 0 and 1, and eight special characters |
| AdminPassword.GenerateAdminPassword | cmd/server/main.go:2964-3007 | Whatever is drawn, the password has 16 characters of the four sets and meets the policy |

## Left out

* Similarity.ScoreNodeSimilarity: computes the score in real arithmetic; float64 rounding and the reason text are not modelled.
* Similarity.Signals: takes the seven texts as given; finding them in nested JSON depends on Go's map order.
* Text.TokensExactly: letters, digits, blanks and case are those of ASCII, not of Unicode.
* RateLimit.TokensStep: the token bucket of golang.org/x/time/rate is taken as min(20, tokens + elapsed), minus one when at least one is left.
* OnCall.Turn: intervals are whole seconds; time zones, RFC 3339 and "HH:MM" parsing are not modelled.
* Resolvers.ResolveLayered: the anchor is parsed and the interval a whole number of hours; the start-of-week fallback and fractional hours are not modelled.
* Resolvers.ResolveLayeredAllLayers: the same, and it answers users only, not layer names.
* Resolvers.FirstUser: what the escalation worker does besides, overrides first and members that cannot be loaded skipped, is not modelled.
* IncidentStore.IncidentDB.ResolveIncident: the job that the handler enqueues afterwards is not in the contract; its graph writes are the jobs of `TwoPhase`.
* Subgraph.GetSubgraph: reads the root and runs the query on one snapshot; the source runs two statements, between which the graph may change.
* SimilarSearch.FindSimilar: reads the source node and the candidates on one snapshot too; the store's threshold is a parameter; `updated_at` columns are not modelled.
* Escalation.Apply: a failed compare-and-set did not commit; an error returned after a commit would move the step without a claim.
* Escalation.Enabled: policies are fixed during a run, and thresholds do not overflow Go's durations.
* Dedup.Apply: incident quota, fingerprint hashing, payload parsing and the job queue are not modelled; a fingerprint is a key.
* TeamAccess.Idempotent: takes the grants in one order, which the query does not promise; see `TeamAccess.OrderIrrelevantExactly`.
* TeamAccess.AccessDB.SyncTeamAccess: every statement succeeds; the partial states a database error leaves are not modelled.
* Lockout.LockoutBound: logins come one after the other; concurrent ones, and a failing counter update, are not modelled.
* K8sHealth.Collector.ReconcilePod: an event is its kind, severity and key; titles, workloads and labels, watch streams and retries are not modelled.
* K8sHealth.Collector.ReconcileNode: its events leave out titles, workloads and labels too.
* K8sHealth.Collector.CheckPending: its events leave out titles, workloads and labels too.
* AdminPassword.GenerateAdminPassword: the random source is a parameter and does not fail.
* Notifications.Apply: what a channel does when it fires, and the rules that queue rows, are abstract.
* Dashboard, HTTP handlers' decoding and authorisation, AI backends, notifiers and collectors' clients: plumbing without a hard property.
* Cryptography, tokens and the sanitiser's regular expressions: foreign primitives.
