# Model and proofs of the research platform's server logic

This project models the scheduling, concurrency, encoding and accounting logic of the server under
`src/c2/server` and proves properties of it. `dafny verify dfyconfig.toml` checks everything.

- **Dependency graphs.** A shared three-colour depth-first search (`DepthFirst`), the two verdict-only
  checks built on it (`DependencyCheck`), the growth of the stored task graph through task creation and
  playbooks (`TaskGraphGrowth`, over `TaskRows`), chain validation and planning in waves (`ChainEngine`), the bounded
  breadth-first traversal and the reporting walk of the knowledge graph (`KnowledgeTraversal`,
  `KnowledgeGraphContract`, over `KnowledgeEdges`). `Graphs` holds walks, cycles, depths and the pigeonhole arguments.
- **Protocols.** Playbook runs: one invocation after the other (`PlaybookExecutor`), what each answers
  (`PlaybookAnswers`), and overlapping invocations (`PlaybookRaces`); the leased job queue (`JobQueue`) and how
  often it claims a job (`JobAttempts`); research tasks with compare-and-swap and approvals (`ResearchTasks`) and
  the look-up by title that follows their creation (`TaskLookUps`); and idempotent execution (`Idempotency`). Each
  database table is a map or a list of rows, each query is one atomic step, and the steps of any number of callers,
  who may stop at any point, interleave. Beside the steps, a class runs each operation from start to end; its
  methods are tied to functions of the old state, and lemmas say what these functions answer and write in terms
  of the stored columns and of numbers.
- **Codecs.** The canonical request text (`StableJson`, `StableJsonProofs`), base32 of section 6 of
  RFC 4648 (`Base32`) and time-based codes of section 4.2 of RFC 6238 over section 5.3 of RFC 4226
  (`Totp`).
- **Histories and sums.** Keyset pagination (`Pagination`, `CursorScopes`, `OrganizationPages`), both rate limiters
  (`TargetRateLimits`, `RateLimits`), the audit hash chain (`AuditChain`), billing of AI runs (`AiBilling`), and the
  deduplication and correlation of findings (`Findings`, `FindingCorrelation`). `Collections`,
  `Sorting` and `Decimals` hold what several of these share.

Clocks, hash functions, the MAC, the text of a date, upper- and lower-casing, trimming, the comparison of strings for
sorting and the outcomes of handlers are parameters. A digest is assumed free of collisions only where
a lemma says so. Access to a workspace is taken as granted. `nextRevision` is taken to add one and to
throw at the largest 32-bit integer.

## What the proofs found

Where the code does something a reader might not expect, the model follows the code and a lemma says
exactly when.

- A heartbeat extends `leaseExpiresAt` but not `lockedAt`, and the recovery query releases a job when
  either is old. So a heartbeat never prolongs a claim, and one that the same worker sent before the
  claim and that arrives late shortens it (`JobQueue.HeartbeatsDoNotProlong`). A claim is protected for
  its lease time if and only if no such heartbeat can arrive (`JobQueue.LeaseProtectsIff`).
- Lease recovery does not look at `maxAttempts`, so a job whose workers crash can be claimed any number
  of times (`JobQueue.CrashingJobIsClaimedForever`). A claim writes the number of attempts that its
  worker read, one higher, without comparing it, so claims from older rows lose attempts: even if no
  lease ever expires, `maxAttempts` bounds the claims if and only if it is at most one
  (`JobAttempts.BudgetHoldsIff`). `JobAttempts.ClaimsAreBounded` bounds them by what was lost; without
  expiry and without older rows a failing job is claimed and dead-lettered as intended
  (`JobAttempts.FailingJobIsDeadLettered`).
- The executor asserts the row counts of three of its updates and throws, after the update took effect,
  if the driver does not report them on the result object itself. With the result arrays that
  `drizzle-orm/mysql2` returns (read as `updated[0].affectedRows` elsewhere in the server), a run with
  work left is therefore never completed: the first invocation claims it and throws, the next one
  completes a task and throws before recording it (`PlaybookExecutor.UncountedTaskIsLost`). How many
  invocations complete a run, with and without counts, is `PlaybookExecutor.RunCompletesIff`.
- The executor does not claim a run that is already running, and its last query overwrites the whole
  checkpoint. An invocation erases exactly the entries recorded since it read the run
  (`PlaybookRaces.WriteErasesWhatItMissed`). Even where counts are reported, from every executable run with work left
  two overlapping invocations, or one crash before the last query, lead to a task that is completed but
  never recorded (`PlaybookRaces.OverlapStrandsTask`, `PlaybookRaces.CrashStrandsTask`). Further
  invocations can complete a run if and only if it has no such task, and counts are reported or all tasks
  are recorded (`PlaybookRaces.RunCanCompleteIff`); otherwise only a person can, by moving the run by hand.
- Approving a cancelled task that is still pending queues it again
  (`ResearchTasks.ApprovalRevivesCancelledTask`), and an approval reports success also when its
  compare-and-swap wrote nothing (`ResearchTasks.ReportedSuccess`).
- Creating a task looks the new row up again by session and title, newest first. It is certain to find
  the right row if and only if every other row with them is older (`TaskGraphGrowth.ReadBackIsFaithfulIff`,
  `TaskLookUps.LookUpFindsOwnIff`). Otherwise the dependency rows can go to another task. They can then
  close a cycle, in every acyclic table under an exact condition (`TaskGraphGrowth.RequestClosesCycleIff`,
  `TaskGraphGrowth.GraphStaysAcyclicIff`), and from then on every creation is refused, while playbooks,
  which do not check the stored rows, go on (`TaskGraphGrowth.CycleBlocksCreationForGood`); or they can
  hide the other task's own dependencies, so that it starts while these are open
  (`TaskLookUps.ClashStartsTaskEarly`). Without clashing titles neither can happen
  (`TaskGraphGrowth.NewTitlesKeepAcyclic`, `TaskLookUps.ClashFreeRunsAreClear`).
- An idempotency record that has expired still answers: the insert conflicts with it. So a failed key
  stays used up for good (`Idempotency.LaterCallsReplay`).
- In the first 30 seconds of the epoch a check of a six-digit code always fails with an error
  (`Totp.VerificationFailsIff`).
- The request limiter admits at most 2 * max - 1 requests in a window, which is reached
  (`RateLimits.LimitIsRespected`, `RateLimits.LimitIsReached`), if and only if `maxEntries` has room for
  all live keys (`RateLimits.LimitHoldsIff`); one key more, and there is no bound at all
  (`RateLimits.EvictionDefeatsLimit`).
- The audit log verifies only if every entry of the workspace was written by the governance appends.
  Entries of the control plane's own chain and unchained entries, which several components write into
  the same table, break the verification for good (`AuditChain.LogVerifiesIff`). So does an append that
  another entry overtakes between its read and its insert (`AuditChain.RacingLogVerifiesIff`), and the stored details text is not covered
  (`AuditChain.DetailsAreNotCovered`).
- Updates of an AI run have no compare-and-swap. Over every interleaving the workspace is charged too
  much by exactly the costs of billed rows that a later write replaced (`AiBilling.DriftIsOverwritten`),
  so charging is exact if and only if no such row had a cost (`AiBilling.ChargingIsExactIff`).
- Deduplicating findings twice throws if lower-casing made a key longer than 256 characters
  (`Findings.DeduplicatingTwice`).
- The role audit export stops after 10,000 queried rows and filters afterwards
  (`OrganizationPages.AuditPagesMatchExport`).

## Model

| member | source | states |
|---|---|---|
| DepthFirst.Search.Visit | src/c2/server/playbook-executor.ts:59-70 | A visit reports a cycle exactly when the node leads to one, whatever marks earlier abandoned visits left; the search terminates on every graph. |
| DependencyCheck.HasDependencyCycle | src/c2/server/playbook-executor.ts:51-71 | True if and only if the rows among the given ids contain a closed chain, self-loops included. |
| DependencyCheck.BuildGraph | src/c2/server/research-validation.ts:40-44 | The adjacency map represents the rows exactly; ids below 1 are refused. |
| DependencyCheck.AssertDependencyGraphAcyclic | src/c2/server/research-validation.ts:39-56 | Refuses invalid ids, and otherwise throws if and only if the rows contain a closed chain. |
| DependencyCheck.ChecksAgree | src/c2/server/playbook-executor.ts:51-71 | Both cycle checks agree on internal edges; when only the validator reports a cycle, every cycle leaves the given ids. |
| TaskGraphGrowth.GoodPrefix | src/c2/server/research-intelligence.ts:140-147 | Templates are inserted up to the first whose title or type is refused or that does not point only to earlier templates. |
| TaskGraphGrowth.TemplateRows | src/c2/server/research-intelligence.ts:153-156 | The dependency rows of a playbook are exactly the template dependencies, shifted to the created ids. |
| TaskGraphGrowth.DependencyRows | src/c2/server/research-intelligence.ts:155-155 | The loop over created ids produces exactly those rows. |
| TaskGraphGrowth.TaskStore.InsertOne | src/c2/server/research-workflow.ts:400-400 | Inserting a task takes the next auto-increment id and changes nothing else. |
| TaskGraphGrowth.TaskStore.InsertMany | src/c2/server/research-workflow.ts:403-405 | Dependency rows are inserted all together, or not at all when the unique index refuses them. |
| TaskGraphGrowth.TaskStore.LookUpNewest | src/c2/server/research-workflow.ts:401-401 | The look-up after a creation returns a newest row of the session with the title, any of them on a tie. |
| TaskGraphGrowth.TaskStore.LookUpLast | src/c2/server/research-intelligence.ts:150-150 | The look-up of a playbook returns the row of the session with the title that has the highest id. |
| TaskGraphGrowth.TaskStore.InsertTemplate | src/c2/server/research-intelligence.ts:149-152 | Inserting the task of a template and looking it up by title gives the new id, whatever titles are stored. |
| TaskGraphGrowth.TaskStore.CreateResearchTask | src/c2/server/research-workflow.ts:382-409 | Creating a task: title, session check of the dependencies, acyclicity assertion over the stored rows, insert, look-up by title, dependency rows of the row found. |
| TaskGraphGrowth.TaskStore.RunPlaybook | src/c2/server/research-intelligence.ts:136-156 | Running a playbook: tasks inserted template by template until one is refused for its title, type or dependencies, then all dependency rows. |
| TaskGraphGrowth.CreationAnswers | src/c2/server/research-workflow.ts:382-405 | Which creations are refused, and why, in terms of title, ids, session and stored rows; an accepted one takes the next id and attaches one row per different dependency to the task that was read back, or none if a pair is stored already. |
| TaskGraphGrowth.PlaybookAnswers | src/c2/server/research-intelligence.ts:136-156 | The templates before the first bad one become tasks with the next ids in order, and only if there is none their rows follow; no templates or more than 200 change nothing. |
| TaskGraphGrowth.RankedIsAccepted | src/c2/server/research-validation.ts:39-56 | Rows that all point to older tasks pass the assertion. |
| TaskGraphGrowth.RequestKeepsRanked | src/c2/server/research-workflow.ts:393-405 | One creation or playbook run with a faithful read-back keeps all rows pointing to older tasks and is not refused for a cycle. |
| TaskGraphGrowth.RequestKeepsAcyclic | src/c2/server/research-workflow.ts:393-405 | In every acyclic table, whichever way its rows point, a playbook run or a creation with a faithful read-back is not refused for a cycle and leaves an acyclic table. |
| TaskGraphGrowth.GraphStaysAcyclic | src/c2/server/research-workflow.ts:393-405 | From every acyclic table and with faithful read-backs, every sequence of creations and playbook runs keeps the graph acyclic and the assertion never throws; rows that all point to older tasks go on doing so. |
| TaskGraphGrowth.ReadBackIsFaithfulIff | src/c2/server/research-workflow.ts:400-401 | The look-up by title is certain to return the new row if and only if every stored row of the session with the title is older. |
| TaskGraphGrowth.NewTitlesKeepAcyclic | src/c2/server/research-workflow.ts:393-405 | From every acyclic table, if every creation uses a title that is new in its session, then whatever the look-ups may return the graph stays acyclic and no creation is refused for a cycle. |
| TaskGraphGrowth.RowsCloseCycleIff | src/c2/server/research-workflow.ts:401-405 | Adding the rows of one task to an acyclic table closes a cycle if and only if a dependency is, or leads to, that task. |
| TaskGraphGrowth.CycleBlocksCreationForGood | src/c2/server/research-workflow.ts:393-400 | Once the stored graph has a cycle, no later creation succeeds, whatever creations and playbook runs happen in between. |
| TaskGraphGrowth.CreationCanCloseCycleIff | src/c2/server/research-workflow.ts:400-405 | In every acyclic table a creation can close a cycle if and only if a row with the same session and title, at least as new and the newest, stores none of the dependencies yet and one of them is that row or leads to it. |
| TaskGraphGrowth.RequestClosesCycleIff | src/c2/server/research-workflow.ts:393-405 | In every acyclic table a possible request closes a cycle if and only if it is a creation whose look-up returned such a row; every other possible request leaves an acyclic table. |
| TaskGraphGrowth.GraphStaysAcyclicIff | src/c2/server/research-workflow.ts:393-405 | Over every possible sequence of creations and playbook runs the graph stays acyclic if and only if none of them is such a creation. |
| TaskGraphGrowth.TitleClashClosesCycle | src/c2/server/research-workflow.ts:400-405 | In every acyclic table: a new task that depends on the newest one with its own title, created no later, may find that one, which then depends on itself. |
| ChainEngine.CheckNode | src/c2/server/chain-engine.ts:28-39 | The structural errors of one node, in order. |
| ChainEngine.CheckDependencies | src/c2/server/chain-engine.ts:31-35 | One entry per dependency that no node defines, in order. |
| ChainEngine.ReportCycles | src/c2/server/chain-engine.ts:41-54 | The marking walk reports one entry per listed node that leads to a cycle, in list order, despite marks left by failed visits. |
| ChainEngine.ValidateChainDefinition | src/c2/server/chain-engine.ts:24-57 | The report is the structural errors followed by the cycle entries. |
| ChainEngine.CycleErrorsExact | src/c2/server/chain-engine.ts:41-54 | `cycle_detected` is reported for exactly the node ids that lead to a cycle. |
| ChainEngine.StructuralErrorsExact | src/c2/server/chain-engine.ts:28-39 | There is no structural error if and only if ids are distinct and non-empty, dependencies exist and iterations are bounded. |
| ChainEngine.CauseIsReported | src/c2/server/chain-engine.ts:28-39 | Every structural defect of a node is in the report. |
| ChainEngine.ReportHasCause | src/c2/server/chain-engine.ts:28-39 | Every reported structural error has a node with that defect. |
| ChainEngine.CleanReportIff | src/c2/server/chain-engine.ts:24-57 | A chain validates if and only if it is well formed: structure and no cycle. |
| ChainEngine.WellFormedIff | src/c2/server/chain-engine.ts:24-57 | Well formed means, of the listed nodes alone: distinct non-empty ids, known dependencies, loops of both kinds bounded by 1 to 1000, and no circle of dependencies. |
| ChainEngine.SomeNodeReady | src/c2/server/chain-engine.ts:67-69 | In a valid chain some remaining node is always ready. |
| ChainEngine.ReadyIsLayer | src/c2/server/chain-engine.ts:67-70 | In round k the ready nodes are exactly those whose longest dependency path has k edges. |
| ChainEngine.DeleteReady | src/c2/server/chain-engine.ts:71-74 | The planned nodes leave the remaining map and join the completed set. |
| ChainEngine.PlanChainExecution | src/c2/server/chain-engine.ts:59-78 | Refuses exactly the invalid chains, never fails to plan, terminates, and wave k lists exactly the nodes of depth k; no wave is empty and every node is planned. |
| ChainEngine.PlanIsSchedule | src/c2/server/chain-engine.ts:59-78 | The waves partition the nodes and every dependency lies in a strictly earlier wave. |
| ChainEngine.PlanIsMinimal | src/c2/server/chain-engine.ts:59-78 | No assignment of levels that respects the dependencies uses fewer waves. |
| ChainEngine.LayerKeepsOrder | src/c2/server/chain-engine.ts:68-70 | A wave lists its nodes in the order of the definition. |
| KnowledgeEdges.AdjacencyExact | src/c2/server/knowledge-graph-contract.ts:11-12 | The adjacency map lists the targets of each source in edge order. |
| KnowledgeTraversal.Expand | src/c2/server/knowledge-graph.ts:63-71 | Expanding one queued node keeps all distances exact and adds every unseen target unless the limit is reached. |
| KnowledgeTraversal.NearNodesFound | src/c2/server/knowledge-graph.ts:62-72 | Every node nearer than the next queued one has been found. |
| KnowledgeTraversal.DepthBound | src/c2/server/knowledge-graph.ts:58-58 | The depth is the one asked for within 0 to 12, the nearest of these otherwise, and 3 if absent. |
| KnowledgeTraversal.SizeBound | src/c2/server/knowledge-graph.ts:59-59 | The size is the one asked for within 1 to 500, the nearest of these otherwise, and 100 if absent. |
| KnowledgeTraversal.TraverseGraph | src/c2/server/knowledge-graph.ts:53-74 | For a depth within 0 to 12 and a size within 1 to 500: every returned node lies within the depth and carries its exact shortest distance; below the size the result is complete; when cut off, no omitted node is nearer than a kept one; the edges are those between returned nodes. Absent bounds are 3 and 100, others the nearest allowed ones. |
| KnowledgeGraphContract.Walker.Walk | src/c2/server/knowledge-graph-contract.ts:16-22 | After a walk the node is marked cyclic if and only if it leads to a cycle. |
| KnowledgeGraphContract.FindCycleNodes | src/c2/server/knowledge-graph-contract.ts:13-23 | The marked nodes are exactly the listed nodes that lead to a cycle. |
| KnowledgeGraphContract.Orphans | src/c2/server/knowledge-graph-contract.ts:8-10 | Orphans are exactly the listed nodes that no edge touches. |
| KnowledgeGraphContract.Sorted | src/c2/server/knowledge-graph-contract.ts:25-25 | The cycle nodes are listed in ascending order without repetition. |
| KnowledgeGraphContract.CyclePresence | src/c2/server/knowledge-graph-contract.ts:23-25 | If the marked nodes are those that lead to a cycle, none is marked if and only if the graph is acyclic. |
| KnowledgeGraphContract.WeakEdges | src/c2/server/knowledge-graph-contract.ts:24-24 | Counted as weak are exactly the edges with a confidence below 60. |
| KnowledgeGraphContract.AnalyzeKnowledgeGraph | src/c2/server/knowledge-graph-contract.ts:4-26 | `cycleNodeIds` are exactly the nodes that lead to a cycle, `integrity` holds if and only if the graph is acyclic, unknown endpoints are refused. |
| PlaybookExecutor.Reconcile | src/c2/server/playbook-executor.ts:40-43 | Keeps exactly the checkpointed ids of the run, once each. |
| PlaybookExecutor.SelectDependencyReadyTask | src/c2/server/playbook-executor.ts:45-49 | Selects the ready task of highest priority and lowest id; none only if no task is ready. |
| PlaybookExecutor.TasksOf | src/c2/server/playbook-executor.ts:114-114 | The query returns as many tasks as ids exactly when every id is present in the workspace. |
| PlaybookExecutor.RowsOf | src/c2/server/playbook-executor.ts:115-115 | The query returns exactly the dependency rows of the run's tasks in the workspace. |
| PlaybookExecutor.PlaybookStore.ExecutePlaybookRunJob | src/c2/server/playbook-executor.ts:93-177 | One invocation updates run, task and checkpoint and answers as the step function says, on every branch, including the throws after updates whose row count the driver does not report. |
| PlaybookAnswers.RefusedAnswers | src/c2/server/playbook-executor.ts:93-112 | What each invocation answers that does not get past the claim, and that it changes nothing, except that an unconfirmed claim has taken effect. |
| PlaybookAnswers.UnfinishedIff | src/c2/server/playbook-executor.ts:105-117 | The compared counts tell exactly whether a listed task is not recorded. |
| PlaybookAnswers.FinishedAnswers | src/c2/server/playbook-executor.ts:117-121 | A run that has recorded all of its tasks is completed with its whole list, even if tasks are missing or dependencies are broken. |
| PlaybookAnswers.BrokenRunFails | src/c2/server/playbook-executor.ts:123-142 | For every store: an open run with work left that lists a missing task, depends on a task outside it, or on itself in a circle is failed for the first of these reasons and touches no task; no other is failed. |
| PlaybookAnswers.NothingReadyAnswers | src/c2/server/playbook-executor.ts:144-149 | With no task ready the run is paused, and exactly the listed tasks that are not recorded are noted as blocked. |
| PlaybookAnswers.FirstReadyAnswers | src/c2/server/playbook-executor.ts:144-176 | Otherwise the ready task of highest priority and then lowest id is taken: left alone, blocked or completed by its type and adapter, with the whole effect on run and checkpoint. |
| PlaybookAnswers.DoneIff | src/c2/server/playbook-executor.ts:93-170 | A task is reported done if and only if counts are reported, work is left, nothing is missing, outside or circular, and it is the first ready task, of a passive type and with a registered adapter. |
| PlaybookExecutor.UnfinishedTaskReady | src/c2/server/playbook-executor.ts:45-49 | With internal acyclic dependencies, some unfinished task always has all its dependencies completed. |
| PlaybookExecutor.InvocationProgresses | src/c2/server/playbook-executor.ts:93-170 | Where the driver reports row counts, an invocation of an executable run completes exactly one further task, whose dependencies are completed, and leaves the run executable or completed. |
| PlaybookExecutor.RunCompletes | src/c2/server/playbook-executor.ts:93-170 | Where the driver reports row counts, repeated invocations never pause, complete the remaining tasks once each in dependency order, and close the run after exactly that many invocations. |
| PlaybookExecutor.FinishedRunCloses | src/c2/server/playbook-executor.ts:109-121 | A run whose tasks are all recorded is completed by one invocation, without touching a task, if counts are reported or the run is running already; without counts the invocation throws after that. |
| PlaybookExecutor.UncountedInvocation | src/c2/server/playbook-executor.ts:82-171 | Where the driver reports no row counts, an invocation leaves the ids and the recorded tasks of a run with work left unchanged and does not complete it. |
| PlaybookExecutor.UncountedInvocations | src/c2/server/playbook-executor.ts:82-171 | Nor does any number of them. |
| PlaybookExecutor.UncountedTaskIsLost | src/c2/server/playbook-executor.ts:109-166 | For every executable run with work left: without counts the first invocation claims the run and throws, and the next one completes a task and throws before recording it. |
| PlaybookExecutor.RunCompletesIff | src/c2/server/playbook-executor.ts:82-170 | For every executable run, both kinds of driver and every n: n invocations complete it if and only if n is at least the number of tasks left, or one if there are none, or two if it also has to be claimed without counts; with work left and no counts no n does. |
| PlaybookExecutor.InvocationIsSafe | src/c2/server/playbook-executor.ts:93-177 | In any state and with either kind of driver, an invocation keeps the checkpoint closed under dependencies, touches no other run and moves at most one task, a queued one: to completed or blocked; the result names it, or is the throw of the task completion. |
| PlaybookRaces.RecordedTasksAreCompleted | src/c2/server/playbook-executor.ts:93-177 | However invocations overlap, crash or throw, checkpoints record completed tasks only, and a run is completed only when all of its tasks are recorded. |
| PlaybookRaces.TaskIsCompletedOnce | src/c2/server/playbook-executor.ts:163-169 | Two invocations never both report or record the completion of the same task, however they overlap. |
| PlaybookRaces.TaskIsMovedOnce | src/c2/server/playbook-executor.ts:163-166 | A task is moved to completed at most once over every interleaving, whether or not the mover gets to record it. |
| PlaybookRaces.WriteErasesWhatItMissed | src/c2/server/playbook-executor.ts:98-167 | For every interleaving between the first and the last query of an invocation: the last query erases exactly the entries recorded in between, other than its own, unless it fails the run. |
| PlaybookRaces.StrandedRunNeverCompletes | src/c2/server/playbook-executor.ts:98-170 | If a completed task is neither recorded nor known to a live invocation, this stays so over all further invocations, and none of them completes the run. |
| PlaybookRaces.UnknownRunNeverCompletes | src/c2/server/playbook-executor.ts:82-170 | The same holds without reported counts for every task that is neither recorded nor known to a live invocation, completed or not. |
| PlaybookRaces.ExecutableIff | src/c2/server/playbook-executor.ts:93-177 | After any overlaps and crashes, an open run with workable tasks and internal, acyclic dependencies is executable again if and only if no task is stranded. |
| PlaybookRaces.RunCanCompleteIff | src/c2/server/playbook-executor.ts:93-177 | And then further invocations can complete it if and only if no task is stranded, and the driver reports row counts or all tasks are recorded. |
| PlaybookRaces.InvocationIsOneInterleaving | src/c2/server/playbook-executor.ts:93-177 | An invocation whose queries are not interrupted has the effect and the result of the sequential function, with either kind of driver. |
| PlaybookRaces.LostClaim | src/c2/server/playbook-executor.ts:109-112 | An invocation that finds the run claimed by another one changes nothing and reports that. |
| PlaybookRaces.LostTask | src/c2/server/playbook-executor.ts:163-174 | An invocation whose task is no longer queued leaves it alone and reports that; without an adapter it pauses the run all the same. |
| PlaybookRaces.OverlapStrandsTask | src/c2/server/playbook-executor.ts:109-167 | Where row counts are reported: from every executable run with work left, two invocations, of which the second reads the running run and goes on when the first is through, strand a task. |
| PlaybookRaces.OverlappedRunNeverCompletes | src/c2/server/playbook-executor.ts:109-167 | After such an overlap in sound tables, no further invocations complete the run. |
| PlaybookRaces.CrashStrandsTask | src/c2/server/playbook-executor.ts:163-167 | Where row counts are reported, a crash between the update of the task and the update of the run strands the task. |
| PlaybookRaces.UncountedInvocationStrands | src/c2/server/playbook-executor.ts:163-166 | Without reported counts, every uninterrupted invocation of a running executable run with work left strands a task. |
| JobQueue.JobStore.Select | src/c2/server/ai-platform.ts:416-416 | The page holds the oldest available jobs, up to the limit. |
| JobQueue.JobStore.ClaimPendingJobs | src/c2/server/ai-platform.ts:410-430 | Expired leases are released, then a page of the oldest available jobs is claimed; with and without row counts from the database. |
| JobQueue.ClaimBound | src/c2/server/ai-platform.ts:416-416 | The page size is the limit within 1 to 100, and the nearest of these otherwise. |
| JobQueue.PageIsClaimed | src/c2/server/ai-platform.ts:410-430 | A job on the page was waiting and due, or its lease was over; it now runs for the worker with one more attempt and a lease of ten minutes. A due job is left out only if the page is full, and other jobs are at most released. |
| JobQueue.PageIsOldest | src/c2/server/ai-platform.ts:416-416 | No due job that is left out has been available longer than a job on the page. |
| JobQueue.JobStore.HeartbeatJob | src/c2/server/ai-platform.ts:395-400 | Only a running job of the same worker is touched. |
| JobQueue.JobStore.CompleteJob | src/c2/server/ai-platform.ts:432-437 | The running job of the worker succeeds and its lock, lease and worker are cleared; nothing else changes. |
| JobQueue.JobStore.FailJob | src/c2/server/ai-platform.ts:439-450 | Only a running job of the same worker is retried with backoff or dead-lettered; the reply names that status whether or not it was written. |
| JobQueue.CompletionWrites | src/c2/server/ai-platform.ts:432-437 | A completion by the holder makes the job succeed and clears lock, lease and worker; attempts, budget and every other row stay. |
| JobQueue.FailureWrites | src/c2/server/ai-platform.ts:439-450 | A failure reported by the holder dead-letters the job exactly if the row read has no attempts left, and otherwise makes it wait for the delay of that attempt. |
| JobQueue.DelaysAreListed | src/c2/server/ai-platform.ts:447-447 | The delay doubles from five seconds for the first attempt to 2,560 for the tenth and is an hour from then on. |
| JobQueue.DeadLetterHasCause | src/c2/server/ai-platform.ts:439-450 | Over every run, a job becomes dead-lettered only by a failure that its holder reports from a row whose attempts are used up. |
| JobQueue.SuccessHasCause | src/c2/server/ai-platform.ts:432-437 | Over every run, a job becomes succeeded only by a completion that its holder reports. |
| JobQueue.ClaimHolds | src/c2/server/ai-platform.ts:420-427 | A claim gives the worker the job under its own stamp if the job waits, and otherwise changes nothing. |
| JobQueue.LeaseProtects | src/c2/server/ai-platform.ts:410-430 | In every interleaving without late heartbeats from before the claim, until the lease time of the claim is over the owner keeps the job unless it ends it. |
| JobQueue.LeaseProtectsIff | src/c2/server/ai-platform.ts:395-430 | The lease protects a claim over all runs whose heartbeats of the owner carry readings from some time on if and only if that time is not before the claim. |
| JobQueue.TakeoverNeedsEndOrLease | src/c2/server/ai-platform.ts:415-420 | A later claim takes effect only after the owner ended the job, a heartbeat from before the claim arrived late, or the lease time of the claim is over. |
| JobQueue.HeartbeatsDoNotProlong | src/c2/server/ai-platform.ts:395-415 | After a heartbeat the recovery query releases the job if and only if the claim, or the reading of the heartbeat if that is earlier, is older than the lease. |
| JobQueue.LostJobIsUntouched | src/c2/server/ai-platform.ts:432-450 | A worker that no longer holds the job cannot complete, fail or prolong it. |
| JobQueue.TerminalIsAbsorbing | src/c2/server/ai-platform.ts:410-450 | Succeeded and dead-lettered jobs never change again, in every interleaving. |
| JobQueue.BackoffBounded | src/c2/server/ai-platform.ts:447-447 | Backoff delays never decrease and stay between five seconds and one hour. |
| JobAttempts.ClaimsAreBounded | src/c2/server/ai-platform.ts:410-450 | In every run of any workers a fresh job is claimed at most max(1, maxAttempts) times, plus the releases by expiry, the retries judged from an older row, and the increments that claims from older rows lost. |
| JobAttempts.FailingJobIsDeadLettered | src/c2/server/ai-platform.ts:410-450 | In every run of any workers without expiry, completion, or claims and failures from older rows, a fresh job is claimed at most max(1, maxAttempts) times and is dead-lettered if and only if it failed that often. |
| JobAttempts.OneStaleClaimLosesMany | src/c2/server/ai-platform.ts:416-420 | One claim from an old row can lose all attempts but one, so counting such claims gives no bound. |
| JobAttempts.StaleClaimsAreUnbounded | src/c2/server/ai-platform.ts:416-420 | Without any expiry and without a failure judged wrongly from an older row, once a waiting job with two attempts left is available it can be claimed any number of times, by claims that count on from the row that workers read then. |
| JobAttempts.BudgetOfOneIsKept | src/c2/server/ai-platform.ts:416-420 | With maxAttempts of at most one, claims never lose an attempt. |
| JobAttempts.BudgetHoldsIff | src/c2/server/ai-platform.ts:410-450 | Over all runs without expiry and without such failures, with claims that count on from rows the job has had, a fresh job is claimed within its budget if and only if maxAttempts is at most one. |
| JobQueue.CrashingJobIsClaimedForever | src/c2/server/ai-platform.ts:415-420 | For every n there is a possible run that claims a crashing job n times, whatever maxAttempts is. |
| ResearchTasks.StepIsSound | src/c2/server/research-workflow.ts:400-443 | Every atomic step of every call, whatever its look-up by title returns, keeps the tables sound, and rows only move on to higher revisions. |
| ResearchTasks.StartedTasksAreClear | src/c2/server/research-workflow.ts:400-443 | In every interleaving in which creations attach their dependency rows to the right tasks, a running or completed task is not pending approval and has all its dependencies completed. |
| ResearchTasks.StepIsClearIff | src/c2/server/research-workflow.ts:400-443 | From sound tables with clear tasks, a step leaves started tasks clear, and rows complete, if and only if it attaches no dependency rows to a task whose own are missing from them. |
| ResearchTasks.AlwaysClearIff | src/c2/server/research-workflow.ts:400-443 | So an interleaving keeps them clear throughout if and only if none of its steps does. |
| TaskLookUps.LookUpFindsOwnIff | src/c2/server/research-workflow.ts:400-401 | The look-up by session and title is certain to find the inserted task if and only if every other task with them is older. |
| TaskLookUps.ClashFreeRunsAreClear | src/c2/server/research-workflow.ts:400-443 | In every interleaving in which each insert finds only older tasks with its session and title and no other creation with them between insert and look-up, every creation finds its own task, and running and completed tasks are clear. |
| TaskLookUps.ClashFreeRunsStayAcyclic | src/c2/server/research-workflow.ts:393-405 | In every such interleaving of any number of creations, dependency rows point from younger to older tasks, so the graph stays acyclic and no creation is refused for a cycle. |
| TaskLookUps.TaskStartsEarlyIff | src/c2/server/research-workflow.ts:428-443 | An uninterrupted transition starts a task whose declared dependencies are not all completed if and only if the task may start and it has dependency rows, all of completed tasks. |
| TaskLookUps.ClashMisplacesRows | src/c2/server/research-workflow.ts:400-405 | Two creations of one session and a new title of allowed length, over an accepted table, the second inserted before the first looks up: the first attaches its dependency rows to the second task. |
| TaskLookUps.ClashStartsTaskEarly | src/c2/server/research-workflow.ts:400-443 | After that interleaving the second task can be started while its own dependency is open. |
| TaskLookUps.CreationIsOneInterleaving | src/c2/server/research-workflow.ts:384-405 | The steps of a creation without interference have the effect and the outcome of the sequential call on the columns and rows of the graph. |
| ResearchTasks.RunGrows | src/c2/server/research-workflow.ts:411-443 | Over every run, rows stay, keep session, dependencies, risk and creator, and change only with a higher revision. |
| ResearchTasks.CompletedIsAbsorbing | src/c2/server/research-workflow.ts:53-62 | A completed task never changes again, in spite of approvals, which re-queue tasks. |
| ResearchTasks.OneWritePerRevision | src/c2/server/research-workflow.ts:420-443 | The revision grows by exactly the number of successful writes, so at most one write succeeds per revision. |
| ResearchTasks.StaleCommitChangesNothing | src/c2/server/research-workflow.ts:420-443 | A call that read an older version writes nothing. |
| ResearchTasks.WritesFollowTheRules | src/c2/server/research-workflow.ts:53-62 | Every change of a row follows the transition table or is an approval by somebody else of a pending high-risk task. |
| ResearchTasks.CancelledLeavesOnlyByApproval | src/c2/server/research-workflow.ts:411-423 | A cancelled task changes only by approval, while it is still pending. |
| ResearchTasks.CancelledIsAbsorbingUnlessPending | src/c2/server/research-workflow.ts:411-443 | In every interleaving a cancelled task that is not pending approval never changes again. |
| ResearchTasks.ApprovalRevivesCancelledTask | src/c2/server/research-workflow.ts:411-423 | Approving a cancelled pending task queues it again. |
| ResearchTasks.HighRiskTasksAreApproved | src/c2/server/research-workflow.ts:392-443 | In every interleaving a high-risk task that has been started was approved on the way by somebody other than its creator. |
| ResearchTasks.ReportedSuccess | src/c2/server/research-workflow.ts:420-443 | A transition reports success if and only if it wrote; an approval reports success also when it wrote nothing. |
| ResearchTasks.TransitionIsOneInterleaving | src/c2/server/research-workflow.ts:425-450 | The sequential reading of a transition is one of the interleavings. |
| ResearchTasks.TransitionAnswers | src/c2/server/research-workflow.ts:425-443 | A transition succeeds exactly if the table allows it, the revision is the expected one and, for a start, the task is not pending and every dependency that counts is a completed task of the session. |
| ResearchTasks.ApprovalAnswers | src/c2/server/research-workflow.ts:411-423 | An approval succeeds exactly for a pending task of high or critical risk, by somebody else than its creator, with the expected revision. |
| ResearchTasks.CreationAnswers | src/c2/server/research-workflow.ts:382-400 | Which creations go on to the graph check, and the row they will insert: blocked and pending for high and critical risk. |
| ResearchTasks.ApprovalIsOneInterleaving | src/c2/server/research-workflow.ts:411-423 | The sequential reading of an approval is one of the interleavings. |
| ResearchTasks.TaskTable.TransitionResearchTask | src/c2/server/research-workflow.ts:425-450 | A transition without interference, with all its refusals. |
| ResearchTasks.TaskTable.ApproveResearchTask | src/c2/server/research-workflow.ts:411-423 | An approval without interference, with all its refusals. |
| Idempotency.SafeTtl | src/c2/server/idempotency.ts:47-48 | The lifetime is the requested one rounded down within a minute and thirty days, the nearest of these otherwise, and a day if absent. |
| Idempotency.StepIsSafe | src/c2/server/idempotency.ts:46-78 | Every atomic step of every call, with lost and rejected writes, keeps the invariant, and records keep their hash and expiry. |
| Idempotency.HandlerRunsAtMostOnce | src/c2/server/idempotency.ts:46-78 | In every interleaving the log holds at most one start and one end per key, the start first. |
| Idempotency.AnswersComeFromTheRun | src/c2/server/idempotency.ts:46-78 | Every value answered, fresh or replayed, was returned by the one run of the key, which was started for the call's own request hash. |
| Idempotency.AnswersAgree | src/c2/server/idempotency.ts:52-74 | All answers to one key carry the same value and belong to the same request hash. |
| Idempotency.SettledStays | src/c2/server/idempotency.ts:50-78 | A record that no call is working on and that is not in progress never changes again. |
| Idempotency.LaterCallsReplay | src/c2/server/idempotency.ts:50-67 | Every later call is answered from the settled record: the value for the same request if the run completed, an error otherwise, also after expiry. |
| Idempotency.FreshAnswerSettles | src/c2/server/idempotency.ts:73-74 | A fresh answer leaves the record completed with that value and no other call working on the key. |
| Idempotency.RepeatIsAnsweredAlike | src/c2/server/idempotency.ts:50-74 | After a fresh answer every later call that finishes gets the same value, or an error for a different request. |
| Idempotency.ExecutionIsOneInterleaving | src/c2/server/idempotency.ts:46-78 | The sequential reading of a call is one of the interleavings. |
| Idempotency.ExecutionAnswers | src/c2/server/idempotency.ts:46-78 | The handler runs exactly for a key without a record; each kind of stored record has its own answer, before and after it has expired. |
| Idempotency.FailedWrites | src/c2/server/idempotency.ts:60-78 | What a call does when one of its writes fails or is not reported. |
| Idempotency.FailedInserts | src/c2/server/idempotency.ts:60-67 | A failed insert ends with the error of the database; one that is only not reported leaves a record in progress that nobody completes. |
| Idempotency.RecordTable.ExecuteIdempotent | src/c2/server/idempotency.ts:46-78 | A call without interference or database failure: rows, reply and whether the handler ran. |
| StableJsonProofs.EscapeRead | src/c2/server/idempotency.ts:17-17 | An escaped string (section 7 of RFC 8259, with lone surrogates escaped) reads back as that string. |
| StableJson.PairsAreCopied | src/c2/server/idempotency.ts:17-17 | A high surrogate and the low one behind it are copied together; every other unit is written on its own. |
| StableJson.EscapesAsJson | src/c2/server/idempotency.ts:17-17 | Which units are copied, which have a short escape and which a hexadecimal one (section 7 of RFC 8259). |
| StableJsonProofs.SortAscending | src/c2/server/idempotency.ts:23-23 | The sorted keys ascend by code units. |
| StableJsonProofs.BelowIff | src/c2/server/idempotency.ts:23-23 | A key is below another at the first unit in which they differ, and a proper prefix is below the longer text. |
| StableJsonProofs.PrintRenders | src/c2/server/idempotency.ts:15-24 | A parser recovers the JSON value from the canonical text of every serializable value, whatever delimited text follows. |
| StableJsonProofs.EqualDocsPrintEqual | src/c2/server/idempotency.ts:15-24 | Values that are equal up to the order of object keys, at every depth, print the same text. |
| StableJsonProofs.CanonicalTextIdentifies | src/c2/server/idempotency.ts:15-24 | Two values print the same text if and only if they are equal up to the order of object keys. |
| StableJsonProofs.HashIdentifiesRequest | src/c2/server/idempotency.ts:26-28 | For a digest without collisions the request hashes agree if and only if the requests do. |
| Base32.AlphabetIsListed | src/c2/server/mfa.ts:12-12 | The letters by position are the alphabet. |
| Base32.Base32Encode | src/c2/server/mfa.ts:64-70 | The two loops compute the encoding: bits in groups of five, zeros on the right of the last. |
| Base32.Base32Decode | src/c2/server/mfa.ts:51-62 | The two loops compute the decoding: upper-casing, padding removed, characters outside the alphabet refused, leftover bits dropped. |
| Base32.EncodingSpellsNumber | src/c2/server/mfa.ts:64-70 | The letters, read as digits to the base of 32, spell the big-endian number of the bytes, shifted left by the spare bits of the last letter (section 6 of RFC 4648). |
| Base32.DecodeInvertsEncode | src/c2/server/mfa.ts:51-70 | Decoding any spelling of an encoded byte sequence, in either case and with any padding, gives the bytes back. |
| Base32.EncodeInvertsDecode | src/c2/server/mfa.ts:51-70 | Encoding a decoded text gives the normalized text back if and only if fewer than five bits, all zero, were left over. |
| Totp.TruncationIsMaskedNumber | src/c2/server/mfa.ts:78-79 | Truncation reads four bytes at the offset as a big-endian number and drops its top bit (section 5.3 of RFC 4226). |
| Totp.VerifyTotpCode | src/c2/server/mfa.ts:83-91 | The loop over the drifts, with its early return and its errors. |
| Totp.CodesAreTruncatedMacs | src/c2/server/mfa.ts:72-81 | A generated code has six digits and is the truncated MAC of the 8-byte counter modulo a million. |
| Totp.GeneratedCodeVerifies | src/c2/server/mfa.ts:72-91 | A generated code verifies at every time of at least 30 seconds whose counter differs by at most one. |
| Totp.AcceptedCodeWasGenerated | src/c2/server/mfa.ts:83-91 | An accepted code is the code of a counter at most one away. |
| Totp.VerificationFailsIff | src/c2/server/mfa.ts:83-91 | A check of six digits throws if and only if the time is not finite or below 30 seconds or the secret is malformed. |
| Totp.CountersAreHalfMinutes | src/c2/server/mfa.ts:74-74 | The counter is the number of whole half minutes. |
| Totp.GenerationFailsIff | src/c2/server/mfa.ts:72-77 | A code is generated exactly for a secret that decodes and a time from zero on whose counter has 64 bits. |
| Totp.MalformedCodesAreRefused | src/c2/server/mfa.ts:84-84 | A text that is not six digits is refused without an error. |
| Pagination.NormalizePageSize | src/c2/server/pagination.ts:31-34 | The page size is the requested number rounded down, clamped to 1 to 100, and 50 if there is none. |
| Pagination.SelectListed | src/c2/server/organization.ts:51-51 | The query returns the matching rows in strict listing order. |
| Pagination.SelectBehind | src/c2/server/organization.ts:49-51 | The query behind the boundary of a listed row returns exactly the rest of the listing. |
| Pagination.PageSplits | src/c2/server/organization.ts:51-52 | A page is the front of the rest of the listing and its next cursor stands before what remains. |
| Pagination.PagesListEverything | src/c2/server/organization.ts:103-119 | Following the cursors lists every matching row once and in order, whatever page sizes are asked for. |
| Pagination.PagesAreFull | src/c2/server/organization.ts:74-87 | Every page but the last has the size asked for, and only the last has no cursor. |
| CursorScopes.ScopeTextIdentifies | src/c2/server/organization.ts:223-225 | Two scope texts are equal if and only if the listing, the ids and all filters are, although dates contain the separator. |
| CursorScopes.ScopeTexts | src/c2/server/organization.ts:223-225 | The texts of the four scopes in full. |
| OrganizationPages.CursorsAreBound | src/c2/server/pagination.ts:47-58 | The cursor of a page is accepted by the listing and filters that handed it out, and by no other, although only scope texts are compared. |
| OrganizationPages.JoinedIdsAreDistinct | src/c2/server/organization.ts:51-51 | With unique memberships, a user has one joined row per organization. |
| OrganizationPages.OrganizationsAreListed | src/c2/server/organization.ts:37-53 | Over the two tables: a client that follows the cursors reads an organization if and only if the user is a member of it and it is active, each once, by last update and then id, both descending. |
| OrganizationPages.ListingIsExact | src/c2/server/organization.ts:37-53 | In every listing a client that sends the cursors back reads exactly one sequence of pages, with every kept row once and in the order of the listing. |
| OrganizationPages.MembersAreListed | src/c2/server/organization.ts:74-87 | Following the cursors lists the members of an organization once each, by ascending id. |
| OrganizationPages.ProgramsAreListed | src/c2/server/organization.ts:103-119 | Following the cursors lists the programs of an organization, of one status if one is given, newest first. |
| OrganizationPages.QueriedRows | src/c2/server/organization.ts:227-245 | Following the cursors of the audit reads exactly the role changes of the organization that match actor and times, newest first. |
| OrganizationPages.ShownRows | src/c2/server/organization.ts:246-250 | Of the rows read a page shows exactly those whose details parse and match the filters. |
| OrganizationPages.ShownKeepsOrder | src/c2/server/organization.ts:246-250 | In the order in which they were read. |
| OrganizationPages.AuditPagesMatchExport | src/c2/server/organization.ts:227-268 | The concatenated role audit pages begin with what the export selects, and equal it if and only if no row behind the first 10,000 would be shown. |
| TargetRateLimits.TargetRateLimiter.Allow | src/c2/server/evidence-normalizer.ts:154-163 | A call is allowed if and only if its rate is valid and the interval since the last allowed call of the target is over. |
| TargetRateLimits.NextCallIff | src/c2/server/evidence-normalizer.ts:154-163 | After an allowed call the next one for the target is allowed if and only if its rate is valid and a minute divided by the capped rate has passed. |
| TargetRateLimits.TargetsAreApart | src/c2/server/evidence-normalizer.ts:154-163 | Calls for other targets and refused calls do not matter. |
| TargetRateLimits.AllowedTimesAreSpaced | src/c2/server/evidence-normalizer.ts:154-163 | Allowed calls of a target are at least an interval apart, for every clock. |
| TargetRateLimits.RateIsRespected | src/c2/server/evidence-normalizer.ts:151-165 | At most the rate, rounded up and capped at 600, is allowed per target in any half-open minute, for every history and every clock. |
| RateLimits.BoundedNumber | src/c2/server/rate-limit.ts:16-18 | An option within its bounds is truncated, one beyond them is the bound, and a missing one is the fallback. |
| RateLimits.Configured | src/c2/server/rate-limit.ts:49-51 | Window, limit and room for entries are the options, truncated, within their bounds, and a minute, 120 and 10,000 if absent. |
| RateLimits.OrderedMap.EvictExpired | src/c2/server/rate-limit.ts:34-45 | Expired entries are deleted in place, then the oldest until the map fits. |
| RateLimits.RateLimiter.Handle | src/c2/server/rate-limit.ts:57-91 | One request updates buckets and abuse states and is admitted, blocked or limited. |
| RateLimits.RequestAnswers | src/c2/server/rate-limit.ts:57-91 | When a request is admitted, blocked or limited, and the strike and block that a limited one leaves. |
| RateLimits.BucketsAfter | src/c2/server/rate-limit.ts:67-72 | The buckets after a request: its own has counted it, none is expired, and others are lost only for want of room. |
| RateLimits.BlocksAfter | src/c2/server/rate-limit.ts:72-72 | The blocks after an admitted request: none is over, and others are lost only for want of room. |
| RateLimits.NothingLiveIsDropped | src/c2/server/rate-limit.ts:34-45 | With no more live keys than entries, eviction removes nothing but expired buckets. |
| RateLimits.LimitIsRespected | src/c2/server/rate-limit.ts:57-90 | With a clock that does not run backwards and at most maxEntries live keys, a key is admitted at most 2 * max - 1 times in any half-open window. |
| RateLimits.LimitedKeyIsBlocked | src/c2/server/rate-limit.ts:60-85 | After a limited request the key is blocked until exactly the decided time. |
| RateLimits.LimitIsReached | src/c2/server/rate-limit.ts:67-70 | A fair history reaches that bound. |
| RateLimits.EvictionDefeatsLimit | src/c2/server/rate-limit.ts:40-44 | For every configuration, maxEntries + 1 keys in turn at one moment: the first is admitted in every one of n rounds. |
| RateLimits.LimitHoldsIff | src/c2/server/rate-limit.ts:34-90 | For every limiter that can be configured, the bound of 2 * max - 1 holds for all histories with keys of 1 to 256 characters and at most a given number of live ones if and only if that number is at most maxEntries. |
| AuditChain.AuditLog.AppendAuditEvent | src/c2/server/governance-audit.ts:78-85 | An append adds one row that continues the chain of its workspace. |
| AuditChain.AuditLog.RecordEscalation | src/c2/server/governance-audit.ts:63-67 | An escalation appends a governance entry. |
| AuditChain.WriteAppends | src/c2/server/governance-audit.ts:78-85 | What each of the three kinds of writers stores and digests, given the chain hash of the newest row of the workspace. |
| AuditChain.AuditLog.VerifyAuditIntegrity | src/c2/server/governance-audit.ts:87-98 | Valid if and only if every row continues the chain; otherwise the first row that does not is reported. |
| AuditChain.LogVerifiesIff | src/c2/server/governance-audit.ts:78-98 | The log of a workspace verifies if and only if all its entries were written by serialized governance appends. |
| AuditChain.FinalHashPinsEntries | src/c2/server/governance-audit.ts:87-98 | Two verifying logs of a workspace with the same final hash have the same entries. |
| AuditChain.TruncationVerifies | src/c2/server/governance-audit.ts:87-98 | Cutting entries off the end leaves a log that verifies. |
| AuditChain.DetailsAreNotCovered | src/c2/server/governance-audit.ts:90-96 | Changing the stored details text does not change the verdict. |
| AuditChain.RacingAppendsFork | src/c2/server/governance-audit.ts:80-83 | Two appends that read before either inserts leave a verifying log only if the digest maps the first entry to the hash it continues. |
| AuditChain.RacingLogVerifiesIff | src/c2/server/governance-audit.ts:80-83 | Over every interleaving of the reads and inserts of any number of writers, a verifying log of a workspace still verifies if and only if only governance appends went into it, each with no entry of the workspace inserted between its read and its insert. |
| AuditChain.WriteIsTwoSteps | src/c2/server/governance-audit.ts:78-85 | A write without interference is its read and its insert. |
| AiBilling.CostCents | src/c2/server/ai-platform.ts:97-103 | The cost is the exact ceiling: a million times it exceeds input tokens times input rate plus output tokens times output rate by less than a million. |
| AiBilling.RunTable.UpdateAiRun | src/c2/server/ai-platform.ts:105-121 | An update writes the row and bills the workspace, and refuses missing and terminal runs. |
| AiBilling.Counted | src/c2/server/ai-platform.ts:97-102 | An absent, negative or smaller number than one counts as zero, any other as the whole number below it. |
| AiBilling.WholeTokensCost | src/c2/server/ai-platform.ts:97-103 | For whole tokens and rates the cost is the exact ceiling of input times input rate plus output times output rate, in millionths. |
| AiBilling.UpdateWrites | src/c2/server/ai-platform.ts:105-118 | What an update writes to its run and charges to the workspace, and that it changes nothing for a missing or ended run. |
| AiBilling.UpdateCosts | src/c2/server/ai-platform.ts:111-113 | An explicit cost is taken unless negative; without one, and without a measured one, the run keeps its cost. |
| AiBilling.BilledGrows | src/c2/server/ai-platform.ts:118-118 | Exactly completed and partial runs count towards the billed costs. |
| AiBilling.MeasuredRunBillsItsTokens | src/c2/server/ai-platform.ts:110-118 | Ending an open run of a known model without an explicit cost bills the exact ceiling of the tokens asked for, or else of those of the run, at the two rates of the model. |
| AiBilling.SpendingIsBilled | src/c2/server/ai-platform.ts:105-121 | Over every sequence of starts and serialized updates, spending equals the costs of the completed and partial runs. |
| AiBilling.RunIsBilledOnce | src/c2/server/ai-platform.ts:115-118 | A terminal run never changes, and a run is billed once if it ends completed or partial and not otherwise. |
| AiBilling.DriftIsOverwritten | src/c2/server/ai-platform.ts:105-121 | In every interleaving of reads, row writes and charges of any number of updates, the excess of what a workspace was and will be charged over the costs of its billed runs grows by exactly the costs of billed rows that a later write replaced. |
| AiBilling.ChargingIsExactIff | src/c2/server/ai-platform.ts:105-121 | Charging never falls short, and is exact if and only if no write replaced a billed row with a cost. |
| AiBilling.OnlyRacesReplace | src/c2/server/ai-platform.ts:108-117 | A billed row is replaced only by an update that read the run before that row was written. |
| AiBilling.UpdateIsThreeActions | src/c2/server/ai-platform.ts:105-121 | An update without interference is its three steps in sequence. |
| AiBilling.RacingUpdatesBillTwice | src/c2/server/ai-platform.ts:108-118 | Two updates that both read the open run bill both costs while the run keeps the second; the sum is exact if and only if the first cost was zero. |
| AiBilling.RaceIsTwoWrites | src/c2/server/ai-platform.ts:108-118 | That is what the interleaved steps of two such updates do. |
| Findings.DeduplicateFindings | src/c2/server/ai-result-pipeline.ts:93-107 | The loop over the findings with its map, replacement and sorting, and its errors. |
| Findings.NormalizeAnswers | src/c2/server/ai-result-pipeline.ts:74-82 | Which findings are refused, and the key, conclusion, confidence and up to fifty different references of the others. |
| Findings.DeduplicationKeepsTheBest | src/c2/server/ai-result-pipeline.ts:93-107 | One entry per key; each carries conclusion and confidence of the first most confident finding and the first fifty distinct references; no key is lost. |
| Findings.SortOrders | src/c2/server/ai-result-pipeline.ts:106-106 | The entries are sorted by key. |
| Findings.DeduplicatingTwice | src/c2/server/ai-result-pipeline.ts:74-107 | Deduplicating the result again changes nothing if and only if lower-casing left every key within 256 characters; otherwise it throws. |
| FindingCorrelation.CorrelateFindings | src/c2/server/ai-result-pipeline.ts:113-132 | The loop over the results with its groups, and its errors. |
| FindingCorrelation.ContributionRefusedIff | src/c2/server/ai-result-pipeline.ts:84-92 | A result is refused exactly for its ids, the length of its input, the number of its findings or one of them. |
| FindingCorrelation.ContributionAnswers | src/c2/server/ai-result-pipeline.ts:113-118 | It contributes its deduplicated findings under its trimmed task id. |
| FindingCorrelation.KeysAreCorrelatedOnce | src/c2/server/ai-result-pipeline.ts:116-131 | Every key with findings has exactly one correlation. |
| FindingCorrelation.CorrelationSummarizes | src/c2/server/ai-result-pipeline.ts:116-131 | A correlation names every task with a finding of its key once, the highest confidence and up to fifty of the references. |
| FindingCorrelation.GroupedIsGrouping | src/c2/server/ai-result-pipeline.ts:116-126 | One group per key, with one conclusion per opinion, the highest confidence, the tasks and the first fifty distinct references. |
| FindingCorrelation.FinishedIsSorted | src/c2/server/ai-result-pipeline.ts:127-131 | The correlations are listed in the order of their keys. |
| FindingCorrelation.OrderDoesNotMatter | src/c2/server/ai-result-pipeline.ts:113-132 | Permuting or repeating results changes neither success nor the keys, confidences, numbers of conclusions and review flags. |
| FindingCorrelation.ReviewIsNeededIff | src/c2/server/ai-result-pipeline.ts:127-131 | Review is required if and only if two conclusions differ after folding or all confidences are below 0.6. |

## Left out

- Membership, workspace access, input text limits and other argument checks that precede the first query, unless a property needs them.
- Events, audit entries, search documents and other records written after the modelled row updates.
- PlaybookExecutor.PlaybookStore.ExecutePlaybookRunJob: one invocation without interference, so the branches for a lost claim of the run or the task are only in PlaybookRaces; task texts, adapter outputs and timestamps are left out.
- PlaybookRaces: only invocations change the tables, so runs that a person moves by hand are left out; the tasks and the dependency rows are read in one step.
- Playbook runs and research-task calls write the same task table without sharing a revision; the two protocols are modelled separately.
- JobQueue: job payloads, the execution ledger and enqueueing; completion times.
- ResearchTasks: retry counts, outputs, completion times and the fields of a new task that no check reads; tasks that a playbook creates are queued before their dependency rows are written, and a transition in between is not modelled.
- Titles are taken as trimmed and are equal when the database's collation says so; the checks of a new task's type and priority are left out.
- Idempotency: stored texts are values, so `JSON.parse` of a stored text is not modelled; keys and scopes are taken as already trimmed.
- StableJson.Print: arrays with holes, `toJSON` methods and getters; a number is its shortest decimal text.
- Totp.Generate: times are exact reals, so rounding of the division by a thousand and by thirty is not modelled; generating secrets, envelope encryption, recovery codes and WebAuthn are left out.
- TargetRateLimits: times and intervals are exact reals; `reset` is left out, but the bound holds from every starting state.
- OrganizationPages: the JSON and base64url text of a cursor and its length limit; the CSV text of the export; roles and statuses are words without a colon, as the enumerations are.
- Timestamps with the second precision of the database.
- AiBilling: the budget ceiling at the start of a run, which refuses starts without changing anything; prices are exact integers, not doubles.
- AuditChain: the update of the approval that an escalation makes, and the verification of the control plane's own chain.
- Findings: values of the wrong JavaScript type in a finding.
- JavaScript's call-stack depth in the recursive walks.
- The 19-state execution state machine, the outbox, the tool runner's slots, search and routing scores, reputation levels, and the single-guard status machines of break-glass, reports, red-team, purple-team and bug-bounty work.
- HTTP routes, pages, mail, webhooks, provider calls, SHA-256, HMAC and AES-GCM themselves.
