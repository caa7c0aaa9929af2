# Legacy stage gate of the Pipeline stage step

This project models the legacy, non-block mode of the `stage` step. It covers
the process-wide gate table in `StageStepExecution` and the three operations
that change it:

- `enter` lets a build into a named stage of its job.
- `exit` releases a finished build from every stage.
- `cleanUp` forgets builds that were deleted without exiting.

Each stage works like a semaphore with an optional limit (`concurrency`), with
one extra rule: at most one flow may wait on a stage, and it is always the
newest. When a second flow arrives, the one with the older build is cancelled.

The model follows the code:

- **State.** Class `StageStepExecution.StageTable` holds the table
  `stagesByNameByJob` (job full name → stage name → stage), the snapshot last
  written by `save()`, and a log of every `onSuccess` / `onFailure` delivered to
  a step context (`Signal`).
- **Imperative methods.** `Enter`, `Exit`, `CleanUp`, `Unblock`, `Cancel`,
  `Load`, `Save` and `Clear` change that state step by step, as the Java
  methods do. The release loops visit a job's stages in `TreeMap` key order; the
  cleanup loop may visit them in any order, since it sends no signal.
- **Specification functions.** Module `StageGate` states what each operation
  does as functions on values: `Enter`, `Exit`, `CleanUp`, `Release`,
  `ReleaseAll`, `Park`. Each method is proved to end in exactly the state the
  matching function describes, with exactly the signals, in the same order.
  The properties of the source are proved as lemmas about those functions.
- **Capacity.** Module `Capacity` proves the gate's capacity bound over any
  sequence of `enter` and `exit` calls. It also shows the counterexample the
  source warns about, where a caller lowers the limit.
- **Scenarios.** Module `Scenarios` holds concrete states at the edges. They
  include the cleanup defect reported under Findings.
- **Key order.** Module `KeyOrder` defines `String.compareTo` order and the
  first key of a set.

Environment inputs are parameters:

- `ready: Ctx -> bool` is `StepContext.isReady()`.
- `buildExists: int -> bool` is `job.getBuildByNumber(n) != null`.
- `Ctx` stands for an opaque step-context handle.

A flow waiting on a stage is one value, `Flow(build, ctx)`. The source's
`waitingBuild` and `waitingContext` are always set and cleared together, so
they become one optional field.

For an `enter` that completes, the signals come in this order:

1. at most one `Canceled(loser, newerBuild)`;
2. the `Resumed` signals of the waiters of the other stages the contender's
   build held, in key order;
3. at most the contender's own `Resumed`.

The `IllegalStateException` thrown when a flow of the waiting build enters
again is the outcome `ReentryRejected`. In that case the table keeps the stage
that `enter` created or updated, nobody is signalled and nothing is saved.

Where the code expects more than it enforces, the model follows what the code
does:

- `Stage.unblock` expects the waiting build not to be in `holding` yet, but
  only logs a warning when it is (:338-340). `Scenarios.HolderCanWaitAgain`
  reaches such a state.
- `cleanUp` asserts that a stage it removes has no waiting context (:261), but
  with assertions disabled it removes the stage anyway. `StageGate.CleanUp`,
  and through it `Enter`, `Exit` and the class's `CleanUp` loop, remove it
  too. The rule the assertion intends is `StageGate.CleanUpKeepingWaiters`,
  kept beside it for comparison. See Findings.

## Model

| member | source | states |
|---|---|---|
| KeyOrder.Least | src/main/java/org/jenkinsci/plugins/workflow/support/steps/StageStepExecution.java:162-166 | the first key of a non-empty set of stage names in `TreeMap` (`String.compareTo`) order: it is in the set and precedes every other key |
| KeyOrder.LeastExists | src/main/java/org/jenkinsci/plugins/workflow/support/steps/StageStepExecution.java:196 | every non-empty set of stage names has a first key, so the in-order loops can always proceed |
| KeyOrder.LeastUnique | src/main/java/org/jenkinsci/plugins/workflow/support/steps/StageStepExecution.java:196 | the first key is unique, so the visiting order is determined |
| KeyOrder.LeTotal | src/main/java/org/jenkinsci/plugins/workflow/support/steps/StageStepExecution.java:164 | any two stage names are ordered one way or the other |
| KeyOrder.LeAntisymmetric | src/main/java/org/jenkinsci/plugins/workflow/support/steps/StageStepExecution.java:164 | two names each ordered before the other are equal |
| KeyOrder.LeTransitive | src/main/java/org/jenkinsci/plugins/workflow/support/steps/StageStepExecution.java:164 | the key order is transitive |
| KeyOrder.LeReflexive | src/main/java/org/jenkinsci/plugins/workflow/support/steps/StageStepExecution.java:164 | every name is ordered before or equal to itself |
| StageGate.UnblockAdmitsWaiter | src/main/java/org/jenkinsci/plugins/workflow/support/steps/StageStepExecution.java:334-349 | unblocking puts exactly the waiter's build into `holding`, empties the waiting slot and keeps the limit; `holding` grows by one unless the build was already there, which the source only warns about |
| StageGate.CancelSignals | src/main/java/org/jenkinsci/plugins/workflow/support/steps/StageStepExecution.java:283-291 | the loser is failed, naming the newer build, if and only if both contexts are ready, and at most once |
| StageGate.ReleaseAllIsReleased | src/main/java/org/jenkinsci/plugins/workflow/support/steps/StageStepExecution.java:196-207 | the in-order release loop agrees with an order-free description: each listed stage that held the build loses it and admits its waiter, the others are unchanged, and the signals are exactly the resumptions of those waiters |
| StageGate.ReleaseAllNoHolder | src/main/java/org/jenkinsci/plugins/workflow/support/steps/StageStepExecution.java:229-238 | a release over stages none of which holds the build changes nothing and signals nobody |
| StageGate.Pruned | src/main/java/org/jenkinsci/plugins/workflow/support/steps/StageStepExecution.java:251-259 | pruning keeps exactly the holders whose build still exists, and keeps the limit and the waiter |
| StageGate.CleanUpEffect | src/main/java/org/jenkinsci/plugins/workflow/support/steps/StageStepExecution.java:244-268 | cleanup leaves other jobs alone; a stage keeps exactly its existing holders, its limit and its waiter; it survives if and only if it still holds an existing build, whether or not a flow waits on it; the job survives if and only if one of its stages does |
| StageGate.CleanUpIdempotent | src/main/java/org/jenkinsci/plugins/workflow/support/steps/StageStepExecution.java:244-268 | a second cleanup with the same existence test changes nothing |
| StageGate.CleanUpKeepsWaiters | src/main/java/org/jenkinsci/plugins/workflow/support/steps/StageStepExecution.java:260-263 | the cleanup the assertion at :261 intends never loses a waiting flow: the job, the stage and the waiter remain; and it keeps every stage the source keeps, unchanged |
| StageGate.CleanUpAgreesWhenAssertionHolds | src/main/java/org/jenkinsci/plugins/workflow/support/steps/StageStepExecution.java:260-263 | whenever the source's own assertion holds (no emptied stage has a waiter), cleanup as written equals the intended cleanup |
| StageGate.AdmitLocatesStage | src/main/java/org/jenkinsci/plugins/workflow/support/steps/StageStepExecution.java:162-172 | whatever the outcome, `enter` leaves the job and the stage in the table before its closing cleanup (:215), with the caller's limit replacing any earlier one, and adds no other stage |
| StageGate.AdmitKeepsOtherJobs | src/main/java/org/jenkinsci/plugins/workflow/support/steps/StageStepExecution.java:162-166 | `enter` changes no job but its own |
| StageGate.AdmitTieBreak | src/main/java/org/jenkinsci/plugins/workflow/support/steps/StageStepExecution.java:174-194 | with a waiter: a newer incoming flow cancels it (first signal, if both are ready) and takes over; an older incoming flow is cancelled and the waiter stays the contender; the same build is rejected with no signal and only the located stage; before the closing cleanup (:215) the winner holds the stage or waits on it and the loser does not wait |
| StageGate.EnterRejects | src/main/java/org/jenkinsci/plugins/workflow/support/steps/StageStepExecution.java:190-193 | a re-entry by the waiting build ends `enter` with the located table, no signal and no cleanup |
| StageGate.AdmitReleasesOtherStages | src/main/java/org/jenkinsci/plugins/workflow/support/steps/StageStepExecution.java:196-207 | every other stage of the job that held the contender's build loses it and admits its waiter; stages that did not hold it are unchanged |
| StageGate.AdmitSignalOrder | src/main/java/org/jenkinsci/plugins/workflow/support/steps/StageStepExecution.java:174-214 | the signals of a completed `enter` are at most one cancellation, of the older of the waiter and the incoming flow naming the newer, none when nobody waited; then exactly the resumptions of the released stages' waiters; then the contender's own resumption exactly when the stage has no limit or fewer holders than it |
| StageGate.AdmitParksOrAdmits | src/main/java/org/jenkinsci/plugins/workflow/support/steps/StageStepExecution.java:208-214 | with no limit or fewer holders than the limit, the contender's build is added to `holding`, the slot is empty and the last signal resumes it; otherwise the contender is the single waiter and `holding` is unchanged |
| StageGate.EnterKeepsStage | src/main/java/org/jenkinsci/plugins/workflow/support/steps/StageStepExecution.java:208-216 | the cleanup ending a completed `enter` keeps its stage, with the caller's limit and its waiter, if and only if the stage then holds an existing build; so a contender admitted with an existing build keeps it, and a contender left waiting on a stage no existing build holds loses it |
| StageGate.EnterKeepingWaitersKeepsStage | src/main/java/org/jenkinsci/plugins/workflow/support/steps/StageStepExecution.java:260-263 | with the intended cleanup, a completed `enter` whose contender's build exists always leaves its stage in place, with the caller's limit |
| StageGate.ExitWithoutHolding | src/main/java/org/jenkinsci/plugins/workflow/support/steps/StageStepExecution.java:224-238 | `exit` for an unknown job, or for a build that holds no stage, changes nothing, signals nobody and does not save |
| StageGate.ExitReleases | src/main/java/org/jenkinsci/plugins/workflow/support/steps/StageStepExecution.java:229-241 | otherwise every stage that held the build loses it and admits its waiter, the rest are unchanged, and the table is cleaned up and saved |
| StageGate.ExitResumesWaiters | src/main/java/org/jenkinsci/plugins/workflow/support/steps/StageStepExecution.java:229-237 | the signals of `exit` resume exactly the waiters of the stages that held the build |
| StageStepExecution.LoadedTable | src/main/java/org/jenkinsci/plugins/workflow/support/steps/StageStepExecution.java:132-145 | the table `load()` leaves: the resident one if any, else the stored snapshot, else an empty table |
| StageStepExecution.StageTable.constructor | src/main/java/org/jenkinsci/plugins/workflow/support/steps/StageStepExecution.java:124 | a fresh process: no table resident, the stored snapshot as given, no signal delivered |
| StageStepExecution.StageTable.Clear | src/main/java/org/jenkinsci/plugins/workflow/support/steps/StageStepExecution.java:127-129 | forgets the resident table |
| StageStepExecution.StageTable.Load | src/main/java/org/jenkinsci/plugins/workflow/support/steps/StageStepExecution.java:132-145 | reads the snapshot only when no table is resident, falling back to an empty table |
| StageStepExecution.StageTable.Save | src/main/java/org/jenkinsci/plugins/workflow/support/steps/StageStepExecution.java:147-154 | the stored snapshot becomes the resident table |
| StageStepExecution.StageTable.SaveClearLoad | src/main/java/org/jenkinsci/plugins/workflow/support/steps/StageStepExecution.java:127-154 | a table saved, then forgotten by `clear()`, is loaded back unchanged, and a second `load()` keeps it: the snapshot and the resident table both equal the table saved |
| StageStepExecution.StageTable.Unblock | src/main/java/org/jenkinsci/plugins/workflow/support/steps/StageStepExecution.java:334-349 | resumes the waiter, appending its `Resumed`, and returns the unblocked stage |
| StageStepExecution.StageTable.Cancel | src/main/java/org/jenkinsci/plugins/workflow/support/steps/StageStepExecution.java:283-291 | appends the cancellation exactly when both contexts are ready |
| StageStepExecution.StageTable.ReleaseStage | src/main/java/org/jenkinsci/plugins/workflow/support/steps/StageStepExecution.java:201-206 | one stage of the release loop: reports whether it held the build and ends in the released stage and signals |
| StageStepExecution.StageTable.ReleaseFrom | src/main/java/org/jenkinsci/plugins/workflow/support/steps/StageStepExecution.java:196-207 | the in-order loop over the listed stages ends in the state and signals `ReleaseAll` describes, and reports whether any stage held the build |
| StageStepExecution.StageTable.LiveHolders | src/main/java/org/jenkinsci/plugins/workflow/support/steps/StageStepExecution.java:251-259 | the inner loop of `cleanUp` keeps exactly the holders whose build exists |
| StageStepExecution.StageTable.CleanUp | src/main/java/org/jenkinsci/plugins/workflow/support/steps/StageStepExecution.java:244-268 | the iterator-removal loops end in `StageGate.CleanUp` of the table: every stage left without an existing holder is removed, waiter or not, and the job entry if no stage is left |
| StageStepExecution.StageTable.Contest | src/main/java/org/jenkinsci/plugins/workflow/support/steps/StageStepExecution.java:174-194 | the tie-break returns the contender or the re-entry refusal and appends exactly the cancellation `Contend` describes |
| StageStepExecution.StageTable.Seat | src/main/java/org/jenkinsci/plugins/workflow/support/steps/StageStepExecution.java:196-214 | releases the contender's build from the other stages, then parks or admits it on its stage, with the signals in that order |
| StageStepExecution.StageTable.Enter | src/main/java/org/jenkinsci/plugins/workflow/support/steps/StageStepExecution.java:156-217 | `enter` on the loaded table ends with the outcome, table and signals of `StageGate.Enter`, and saves if and only if it completes |
| StageStepExecution.StageTable.Exit | src/main/java/org/jenkinsci/plugins/workflow/support/steps/StageStepExecution.java:219-242 | `exit` on the loaded table ends with the table and signals of `StageGate.Exit`, and saves if and only if some stage held the build |
| Capacity.ReleasedNoGrowth | src/main/java/org/jenkinsci/plugins/workflow/support/steps/StageStepExecution.java:201-204 | releasing a build never enlarges a stage's `holding`: the build leaves before the waiter comes in |
| Capacity.CleanUpNoGrowth | src/main/java/org/jenkinsci/plugins/workflow/support/steps/StageStepExecution.java:244-268 | cleanup adds no job and no stage, and a surviving stage's `holding` is a subset of what it was |
| Capacity.AdmitKeepsOwnBound | src/main/java/org/jenkinsci/plugins/workflow/support/steps/StageStepExecution.java:208-214 | an `enter` on a stage with its limit `n` keeps the stage within `n`: admission happens only below the limit |
| Capacity.AdmitKeepsOtherBound | src/main/java/org/jenkinsci/plugins/workflow/support/steps/StageStepExecution.java:196-207 | an `enter` on another stage never grows this one |
| Capacity.EnterKeepsBound | src/main/java/org/jenkinsci/plugins/workflow/support/steps/StageStepExecution.java:156-217 | any `enter`, on any job and stage, keeps a stage within `n` provided an `enter` on that stage passes `n` |
| Capacity.ExitKeepsBound | src/main/java/org/jenkinsci/plugins/workflow/support/steps/StageStepExecution.java:219-242 | `exit` keeps every stage within its bound |
| Capacity.CapacityBound | src/main/java/org/jenkinsci/plugins/workflow/support/steps/StageStepExecution.java:196-242 | if every `enter` on a stage passes the same limit `n`, that stage never holds more than `n` builds, through any sequence of calls |
| Capacity.CleanUpKeepsLive | src/main/java/org/jenkinsci/plugins/workflow/support/steps/StageStepExecution.java:244-268 | for any existence test, cleanup of a job each of whose stages holds at least one build, and only builds that exist, changes nothing |
| Capacity.LoweredLimitParks | src/main/java/org/jenkinsci/plugins/workflow/support/steps/StageStepExecution.java:341-343 | two builds hold a stage within its limit of 2; build 3 enters with limit 1, waits, and the limit becomes 1 |
| Capacity.LoweredLimitUnblocks | src/main/java/org/jenkinsci/plugins/workflow/support/steps/StageStepExecution.java:341-343 | build 1 then exits, build 3 is unblocked, and the stage holds two builds against its limit of 1 |
| Scenarios.CleanUpDropsWaiter | src/main/java/org/jenkinsci/plugins/workflow/support/steps/StageStepExecution.java:260-263 | cleanup removes a stage whose only holder was deleted, together with the flow waiting on it; the intended cleanup keeps it |
| Scenarios.ExitDropsWaiter | src/main/java/org/jenkinsci/plugins/workflow/support/steps/StageStepExecution.java:229-241 | build 3 exits from the other stage of that job: nobody is signalled, the table is saved, and cleanup removes both stages and the job, the waiting flow with them |
| Scenarios.LeftCleanUp | src/main/java/org/jenkinsci/plugins/workflow/support/steps/StageStepExecution.java:260-266 | after that exit, cleanup leaves no entry for the job, while the intended cleanup keeps the stage with its waiter |
| Scenarios.ZeroLimitStrandsFlow | src/main/java/org/jenkinsci/plugins/workflow/support/steps/StageStepExecution.java:208-216 | with limit 0, the flow entering a fresh stage parks, and the cleanup ending the same `enter` removes the stage and the job, with no signal; the intended cleanup keeps the stage with the flow waiting |
| Scenarios.HolderCanWaitAgain | src/main/java/org/jenkinsci/plugins/workflow/support/steps/StageStepExecution.java:338-340 | a build holding a full stage can enter it again from another context and wait on it while still in `holding` |

## Left out

- Object identity of `Stage`: stages are values in the nested maps. In the source they are private objects reachable only through the table, so updating in place and storing the updated value agree.
- Concurrency: every operation runs under the one `synchronized` monitor, so calls are modelled one at a time. The `Thread.holdsLock` assertion too.
- Java `assert` statements are treated as disabled, the JVM default. That is why cleanup drops a stage with a waiter instead of failing (see Findings).
- Persistence format: the XStream file, `getConfigFile()` and its `IOException` are not modelled. The snapshot is the table itself, contexts included. A missing or unreadable file is an absent snapshot.
- `TreeSet.remove` at :202: its result is taken as membership of the build, as for an ordinary set. The comment at :231 (XSTR-757) says that result cannot be trusted, apparently for a set read back from the snapshot. If so, `enter` could drop the contender's build from another stage without unblocking that stage's waiter, which `AdmitReleasesOtherStages` and `AdmitSignalOrder` do not capture.
- StageStepExecution.StageTable.Save: always succeeds. A failed write, which the source logs and ignores, would leave the stored snapshot unchanged.
- Exceptions inside `cancel` (`context.get(Run.class)` and printing), which `enter` catches and logs (:178-182, :185-189), are not modelled. In the model `onFailure` is reached whenever both contexts are ready.
- Messages: log output, `println` to build logs, display names and the externalizable id inside `CanceledCause`. A cancellation records only the newer build's number.
- `start()` (block mode, `EnvironmentExpander`, `STAGE_NAME`, the deprecation message), `isInsideParallel`, `stop()`, the `Listener` that calls `exit`, the name check of `StageStep`, and `StageListener`. None of them is part of the gate.
- Key order: `KeyOrder.Le` compares Dafny characters (code points). Java compares UTF-16 units, which differs only for names with characters outside the Basic Multilingual Plane.
- Build numbers and limits are unbounded integers. Java's boxed `Integer` values are compared by value here, as the code's `<` and `>` do after unboxing.

## Findings

| source | as written | input that shows it | evidently intended | confidence | as-written member | corrected member |
|---|---|---|---|---|---|---|
| src/main/java/org/jenkinsci/plugins/workflow/support/steps/StageStepExecution.java:260-263 | cleanup removes every stage whose pruned `holding` is empty; that it has no waiter is only asserted, and assertions are off by default | stage S with limit 1: build 1 holds it, build 2 waits on it, and build 1 is deleted without `exit`; when build 3 exits from another stage of the job, cleanup prunes build 1 and removes S with build 2's context, which is then never resumed or cancelled. The same happens on a fresh stage entered with limit 0. | a stage on which a flow waits is kept, so the next flow to enter that stage cancels or admits the waiter | medium; not executed | StageGate.CleanUp, which the gate operations use, shown by Scenarios.CleanUpDropsWaiter, Scenarios.ExitDropsWaiter and Scenarios.ZeroLimitStrandsFlow | StageGate.CleanUpKeepingWaiters, proved by StageGate.CleanUpKeepsWaiters, StageGate.CleanUpAgreesWhenAssertionHolds and StageGate.EnterKeepingWaitersKeepsStage |
