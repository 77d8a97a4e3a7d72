# Verified model of the deployment orchestrator

The orchestrator expands `include` steps, validates the dependency graph of a pipeline's three
phases, runs every step of a phase in its own goroutine, and rolls back in reverse order when a
phase fails. This project models that chain and the smaller protocols around it in Dafny and proves
what each step of them keeps, over all inputs, all runs and all schedules.

* `Steps`, `Dag`: steps, paths of needs, and Kahn's algorithm against "names distinct, needs known,
  relation acyclic".
* `Expander`, `ExpansionOrder`: include expansion as a graph-rewriting compiler, and what it preserves.
* `Scheduler`, `Executability`, `Rollback`, `Engine`, `RepeatedNames`, `EndToEnd`: one phase as a
  transition system of goroutines, which steps of it get to execute, the phases in sequence, rollback
  and what repeated names do to it, destroy, and the whole chain from the pipeline as written to its runs.
* `Parallel`: the parallel target runner with semaphore, retries, tolerance and blacklist.
* `EventBus`: publishers, dispatcher and Stop over a buffered channel.
* `Versions`, `Store`, `History`: version bumps, the deployments table, and histories over both.
* `VersionOrder`, `ReleasePruner`: the order of release directories and which of them are kept.
* `DnsZone`, `Cloudflare`, `Aliyun`: address collection and the two DNS reconcilers.
* `Streams`, `EventLogWriter`, `PrefixWriter`: the line-cutting writers.
* `SshPool`: the client pool at lock-section granularity.
* `Text`: the string operations used.

Check everything with `dafny verify dfyconfig.toml`.

How the model is built:

* A goroutine protocol is a state with an `Enabled`/`Apply` pair; a theorem speaks about every
  reachable state, hence about every interleaving. Next to it stands a method that runs the protocol
  under an arbitrary scheduler. Objects that the source updates in place are classes, and their
  methods are proved against functions on their contents.
* What a plugin, `run_if`, target resolution or a remote call decides is a parameter, so every result
  holds for all outcomes. The walk over a Go map is an arbitrary choice.
* A step is identified by its phase and name. The engine keys its state by name alone and validates each
  phase on its own, so two phases may share a name; runs are modelled for such pipelines as well, and
  `RepeatedNames.RollbackExactIffDistinct` shows that rollback is exact only without that.

Where the code and its comments disagree the model follows the code:

* `Steps` is described as "finally" (`internal/core/models.go:20`), but a failed phase ends the run
  (`internal/engine/engine.go:571-574`); `Engine.PhaseStartedIff` says when that phase is reached.
* A tolerance of "100%" is read as the absolute number 1, and a plain "0.5" as 50%
  (`internal/core/parallel.go:44-53`, `internal/core/parallel.go:120-124`).
* An include of an empty template drops the ordering it was meant to carry, and can hide a cycle;
  `ExpansionOrder.OrderLostIffThroughEmpty` and `ExpansionOrder.CyclesHiddenIffThroughEmpty` say which.
* Rollback promises to undo the steps that were completed (`internal/engine/engine.go:611`). Where two
  phases share a name it can leave the earlier step up (`RepeatedNames.RepeatedLeavesUp`) or call
  Rollback twice with the later one (`RepeatedNames.CallRepeatsIff`).
* After a failure a step that does not wait for the failing one may still be called
  (`Executability.StartsAfterFailureIff`); what never executes is anything downstream of a failure.
* When the destination of the prefixing writer fails in an unterminated last piece, behind its prefix,
  the writer reports the full length together with the error (`PrefixWriter.CountRightIff`).
* The Aliyun and Cloudflare reconcilers both promise the desired set; Cloudflare leaves surplus wrong
  records in place, so its values are exact only under the condition stated in its contract.

## Model

| member | source | states |
|---|---|---|
| `Dag.ValidateDagSteps` | `internal/engine/dag.go:34-88` | accepts exactly the phases with distinct names, known needs and no cycle; the order returned is a permutation of the steps with every step after its needs, for any seeding order of the queue and any repeated needs; otherwise the first unknown need is reported, and a cycle is reported exactly when all needs are known |
| `Dag.BuildTables` | `internal/engine/dag.go:43-59` | in-degrees and adjacency lists count needs with multiplicity; fails on the first unknown need in declaration order |
| `Dag.SeedQueue` | `internal/engine/dag.go:61-66` | whatever order the map is walked in, the queue starts with exactly the names without needs, once each |
| `Dag.Relax` | `internal/engine/dag.go:74-79` | lowering the in-degrees along one adjacency list keeps them equal to the needs not yet emitted and queues exactly the names that became free |
| `Dag.PartialOrderHasCycle` | `internal/engine/dag.go:82-85` | when fewer steps were emitted than there are, a name is repeated or some step needs itself transitively |
| `Dag.OneFirstUnknown` | `internal/engine/dag.go:51-54` | the need that is reported is determined by the phase |
| `Dag.FullOrder` | `internal/engine/dag.go:87-87` | when all were emitted the phase is acyclic and the order is a topological permutation |
| `Steps.StuckSetHasCycle` | `internal/engine/dag.go:82-85` | a non-empty set of steps each of which waits for another of the set contains a cycle |
| `Steps.TopologicalIsAcyclic` | `internal/engine/dag.go:33-34` | an order with every step after its needs rules out cycles of any length |
| `Expander.ExpandStepArray` | `internal/config/expander.go:40-157` | the result is the concatenation of the pieces of all items, each piece defined by the leaves known when its item is reached; in the order of the items it holds each plain item itself and, for each include, one step per template step, of the same type and under its prefixed name; fails exactly on the first include whose template is missing, unreadable or unparsable |
| `Expander.ExpandInclude` | `internal/config/expander.go:106-150` | namespaced copy of the template: each step keeps its type, entries inherit the relinked needs of the include, inner needs get its prefix, and the leaves are the template steps nobody in the template needs |
| `Expander.RelinkNeeds` | `internal/config/expander.go:51-58` | a need on an expanded include is replaced by all its leaves, in place; any other need stays |
| `Expander.LoadTemplate` | `internal/config/expander.go:67-100` | which of the three errors a bad include yields |
| `ExpansionOrder.OrderPreserved` | `internal/config/expander.go:52-58` | between two items that are expanded to something: X transitively needs Y by way of such items iff some step of X transitively needs some step of Y after expansion, iff every step of X needs every step of Y |
| `ExpansionOrder.TemplateOrderPreserved` | `internal/config/expander.go:106-153` | two steps of one template need each other after expansion exactly as they did inside the template |
| `ExpansionOrder.AcceptedIffSourceAccepted` | `internal/config/expander.go:103-153` | for every phase with distinct item names: the expanded phase passes validation (without a need that only happens to spell the name of an expanded step) iff the names of plain items and the prefixed names of template steps do not collide, the needs of all items that are expanded to something resolve, every template is acyclic and closed, and the source graph has no cycle that avoids empty includes |
| `ExpansionOrder.ItemPathForward` | `internal/config/expander.go:103-153` | along any chain of needs whose own items are well-formed, and not empty in between, every step of the first item needs every step of the last, whatever the rest of the phase looks like |
| `ExpansionOrder.TrimmedPaths` | `internal/config/expander.go:113-153` | the paths that count are exactly the source paths that do not go through an empty include |
| `ExpansionOrder.OrderLostIffThroughEmpty` | `internal/config/expander.go:113-153` | the order between two items that are expanded to something is lost exactly when every source path between them goes through an include of an empty template |
| `ExpansionOrder.CyclesHiddenIffThroughEmpty` | `internal/config/expander.go:113-153` | an otherwise well-formed phase passes validation exactly when every source cycle goes through an include of an empty template |
| `ExpansionOrder.EmitsDeclared` | `internal/config/expander.go:60-60` | the step names of the expanded phase are those of its plain items and the prefixed ones of its templates |
| `ExpansionOrder.DistinctIffNoCollision` | `internal/config/expander.go:60-60` | they are distinct exactly when no template repeats a name and no two items yield the same one |
| `ExpansionOrder.EmptyTemplateHidesCycle` | `internal/config/expander.go:106-153` | an include of an empty template lets a source cycle pass validation |
| `ExpansionOrder.EmptyTemplateLosesOrder` | `internal/config/expander.go:106-153` | a phase in which an include of an empty template loses the order of the items around it |
| `ExpansionOrder.StrayReferenceAccepted` | `internal/config/expander.go:53-57` | a need that spells the name of an expanded step is accepted although nothing of that name was written |
| `EndToEnd.ExpandPipeline` | `internal/config/expander.go:24-37` | each phase is expanded on its own; one bad include fails the whole pipeline, with the error of the first one in the first such phase |
| `Scheduler.ExecutesAfterNeeds` | `internal/engine/engine.go:484-497` | in every interleaving, Execute of a step is called, and a step succeeds, only when everything it transitively needs has finished with a nil error |
| `Scheduler.NothingDownstreamExecutes` | `internal/engine/engine.go:491-493` | no step downstream of a failing or erroring step is ever executed, in any interleaving |
| `Executability.ExecutesIff` | `internal/engine/engine.go:481-568` | some schedule executes a step exactly when the step is one that runs and everything it transitively needs would succeed or be skipped |
| `Executability.StartsAfterFailureIff` | `internal/engine/engine.go:484-497` | a step can be called in a phase that has already failed exactly when it may execute at all and another step fails, with all its needs met, without waiting for it |
| `Executability.StartsAfterFailureExample` | `internal/engine/engine.go:484-497` | two steps without needs: the second is called after the first has failed the phase |
| `Executability.ErrorsBlamed` | `internal/engine/engine.go:484-568` | in every reachable state, an error without outside cancellation goes back to a step that began with all its needs succeeded and was bound to fail |
| `Scheduler.PublishedOnce` | `internal/engine/engine.go:522-524` | no `done` channel is closed twice, a published result never changes, and Execute calls are never undone |
| `Scheduler.ResultsMatchOutcomes` | `internal/engine/engine.go:518-569` | in every reachable state: a skipped step is never executed and reports nil, an early error is never published, a failing Execute reports an error, and a succeeding one nil unless the phase was cancelled under it |
| `Scheduler.VerdictIndependentOfSchedule` | `internal/engine/engine.go:481-571` | with fixed step outcomes and no outside cancellation every interleaving of a phase returns nil iff every outcome is success or skip; with a nil verdict exactly the steps that were not skipped were executed |
| `Scheduler.CancelledFailsIff` | `internal/engine/engine.go:494-496` | a phase cancelled before it starts can fail exactly when some step waits for another or is not skipped at once |
| `Scheduler.DeadlockFree` | `internal/engine/engine.go:484-497` | although early returns never close `done`, in every reachable state of a validated phase some goroutine can move until all have returned |
| `Scheduler.EveryActionProgresses` | `internal/engine/engine.go:481-571` | every action, outside cancellation included, lowers a bounded measure, so every run of a phase ends |
| `Scheduler.PickAction` | `internal/engine/engine.go:489-496` | an arbitrary scheduler always finds an enabled action in a validated phase that has not finished |
| `Scheduler.RunPhase` | `internal/engine/engine.go:458-571` | under an arbitrary scheduler a phase ends, in a reachable state with every goroutine back |
| `Engine.ValidateDag` | `internal/engine/dag.go:12-31` | accepts iff each phase is well-formed, otherwise names the first phase that is not, with the error of that phase; the merged order keeps the phases apart |
| `Engine.SplitPhases` | `internal/engine/engine.go:339-350` | the three slices are in bounds and are orderings of the three phases; the steps to run are the concatenation of the slices kept under SkipBuild |
| `Engine.DistinctPermutation` | `internal/engine/dag.go:68-87` | a permutation of a phase with distinct names has distinct names, so the order can be looked up by name |
| `Engine.FlattenTopological` | `internal/engine/engine.go:346-350` | phases that are topological one by one are topological as one sequence |
| `Engine.PhaseBarrier` | `internal/engine/engine.go:454-575` | a step is executed, or its result published, only after every step of every earlier phase being run has finished with a nil error |
| `Engine.SucceededClosed` | `internal/engine/engine.go:484-497` | in every state of every run, whatever a step that was executed or succeeded transitively needs has succeeded |
| `Engine.RunVerdict` | `internal/engine/engine.go:571-575` | unless the caller cancels, a finished run is a success iff every step of every phase run would succeed or be skipped |
| `Engine.CancellationLasts` | `internal/engine/engine.go:458-459` | a run that has been cancelled stays cancelled in its later phases |
| `Engine.PhaseStartedIff` | `internal/engine/engine.go:454-575` | unless the caller cancels, a finished run has started a phase, the last one included, exactly when every step of every phase before it would succeed or be skipped |
| `Engine.FinallyNotReached` | `internal/engine/engine.go:571-574` | a failing deploy step ends the run before the last phase |
| `Engine.RunOnce` | `internal/engine/engine.go:454-575` | one scheduler move, or the step to the next phase, stays within the reachable states and uses up bounded work |
| `Engine.RunPhases` | `internal/engine/engine.go:454-575` | the loop over the phases ends in a reachable, finished state |
| `Engine.FailedRunRollsBack` | `internal/engine/engine.go:618-665` | where no two phases that are run share a name: whatever state a run stops in, its rollback undoes exactly the steps that succeeded, once each, dependents first |
| `Engine.RunPipeline` | `internal/engine/engine.go:338-669` | rejects exactly the malformed pipelines; otherwise runs build, unless it is skipped, deploy and steps in turn and ends in a reachable finished run: completed only if every step succeeds or is skipped, rolled back without cancellation only if some step fails or errors; the calls are the reverse walk, each with the last step of its name, which is a correct rollback where names are distinct |
| `Rollback.UndoSucceeded` | `internal/engine/engine.go:618-665` | the calls made are the reverse walk over the steps to run, restricted to the succeeded names with a registered plugin, each with the last step of its name; a failing Rollback is counted and changes nothing else |
| `Rollback.CollectSucceeded` | `internal/engine/engine.go:618-627` | exactly the names whose channel is closed with a nil error, skipped steps included |
| `Rollback.RollbackCorrect` | `internal/engine/engine.go:628-665` | each succeeded step is rolled back exactly once, later steps first, and at every point the steps not yet rolled back are closed under needs |
| `Rollback.IndexByName` | `internal/engine/engine.go:430-437` | the table rollback takes its steps from holds the last step of each name |
| `Engine.GivenOfLastPhase` | `internal/engine/engine.go:430-437` | the step Rollback is given under a name is the one of the last phase that has a step of this name |
| `Engine.StateMapOk` | `internal/engine/engine.go:470-472` | a name is marked as succeeded by the last phase started that has a step of this name, since its fresh entry replaces the earlier one |
| `RepeatedNames.RollbackExactIffDistinct` | `internal/engine/engine.go:470-472` | every failed run rolls back exactly the steps that succeeded, once each, iff no two phases that are run share a name |
| `RepeatedNames.RepeatedLeavesUp` | `internal/engine/engine.go:470-472` | for every name two phases share there is a failed run in which the earlier step succeeded and no Rollback call has its name |
| `RepeatedNames.CallRepeatsIff` | `internal/engine/engine.go:628-665` | some failed run calls Rollback twice for one name iff a name is used twice and some step can fail while it is marked: in a phase with a step of this name another step that this one does not wait for, in a later phase without one any step |
| `RepeatedNames.RepeatedCallExample` | `internal/engine/engine.go:628-665` | a run in which "a" succeeds in two phases, "b" then fails, and Rollback is called for "a" twice |
| `Rollback.RollbackKeepsNeeds` | `internal/engine/engine.go:628-665` | a step that is still up after any number of calls has all its needs still up |
| `EndToEnd.IncludeBarrier` | `internal/config/expander.go:103-153` | in every run of the expanded, validated pipeline no step of an item executes before every step of every item it needs, along any chain of needs whose own items are well-formed, has finished with a nil error |
| `EndToEnd.RunSource` | `internal/engine/engine.go:338-669` | the whole chain: fails exactly on a bad include; rejects exactly the pipelines that are malformed as written (item names distinct in their phase, and no need that only spells the name of an expanded step); keeps every barrier of the source in the run, and ends in success or rollback as the outcomes decide, a correct one where names are distinct |
| `EndToEnd.RunDestroy` | `internal/engine/engine.go:778-877` | Uninstall walks the merged order from the back, passes over steps without plugin or with a false run_if, and stops exactly at the first step whose targets do not resolve or whose Uninstall fails |
| `EndToEnd.DestroyRespectsNeeds` | `internal/engine/engine.go:725-877` | when a step is uninstalled every step that needs it has been uninstalled or was passed over |
| `EndToEnd.DestroyPipeline` | `internal/engine/engine.go:683-877` | rejects exactly the malformed pipelines; otherwise succeeds iff every step is uninstalled, has no plugin or a false run_if, and then has uninstalled all it could; where names are distinct each once and none before all that need it were uninstalled or passed over |
| `Parallel.DeployContext.FilterHealthy` | `internal/core/context.go:186-199` | the targets that are not dead |
| `Parallel.HealthyCount` | `internal/core/context.go:186-199` | each of them as often as it was given |
| `Parallel.HealthyInOrder` | `internal/core/context.go:186-199` | and in the order in which they were given |
| `Parallel.PercentIsShareIff` | `internal/core/parallel.go:44-53` | for each number of targets: a percentage is honoured as a share of them exactly when it is below 100 or there is one target only |
| `Parallel.HundredPercentOfFour` | `internal/core/parallel.go:119-124` | of four targets "100%" tolerates one failure |
| `Parallel.ToleranceRead` | `internal/core/parallel.go:42-57` | nothing means 5%, a whole number is a count, a number between 0 and 1 a share, and what is negative or no number tolerates nothing |
| `Parallel.AllowedIsWholePart` | `internal/core/parallel.go:119-124` | the number of tolerated failures is the whole part of the share, or of the number |
| `Parallel.BatchBound` | `internal/core/parallel.go:88-138` | in every reachable state at most BatchSize targets, if that is positive, hold a slot or run the function, only holders run it, none was called more than Retries+1 times, and a goroutine that returned holds no slot |
| `Parallel.RollingOneAtATime` | `internal/core/parallel.go:60-64` | under the rolling strategy no two targets are ever in the function at once |
| `Parallel.AllAtOnce` | `internal/core/parallel.go:76-79` | without a batch size all targets can be in the function at once |
| `Parallel.CallCounts` | `internal/core/parallel.go:98-112` | a target counted as failed was called Retries+1 times; one that came back with nil was called up to and including its first success |
| `Parallel.GaveUp` | `internal/core/parallel.go:88-107` | a target is given up uncounted only with attempts left, and uncalled only behind a semaphore |
| `Parallel.GivesUpWhenCancelled` | `internal/core/parallel.go:92-94` | once the caller has cancelled, a target waiting for a slot may give up uncalled |
| `Parallel.GivesUpRetrying` | `internal/core/parallel.go:103-105` | and one between two attempts may give up after the first |
| `Parallel.GivesUpAfterFailure` | `internal/core/parallel.go:92-94` | a target waiting for a slot may give up because another has broken the tolerance |
| `Parallel.ToleranceVerdict` | `internal/core/parallel.go:98-138` | unless the caller cancels, every interleaving returns nil iff no more targets exhaust all attempts than are tolerated, and on nil the dead set, to which each failing target is added, grew by exactly those targets |
| `Parallel.FractionMeansSomeSuccess` | `internal/core/parallel.go:98-128` | with a tolerance strictly between 0 and 1 a nil result means that some target was called in this run, its last call was one that succeeds, and it came back with nil without having been counted as failed |
| `Parallel.SomebodyCanMove` | `internal/core/parallel.go:89-107` | in every reachable state somebody can move until all goroutines have returned |
| `Parallel.EveryActionProgresses` | `internal/core/parallel.go:85-138` | every action uses up bounded work, so every run ends |
| `Parallel.RunParallel` | `internal/core/parallel.go:70-139` | under an arbitrary scheduler, over the targets healthy on entry: nil only if no more of them fail on all attempts 0 to Retries than are allowed, and without cancellation whenever that is so; the blacklist then grew by exactly these |
| `EventBus.NothingLost` | `internal/bus/eventbus.go:44-63` | at every moment the dispatched events followed by the buffer are the accepted events, in order |
| `EventBus.LogIsExact` | `internal/bus/eventbus.go:66-82` | handlers see each dispatched event once, in registration order, before any Close |
| `EventBus.DrainedBeforeExit` | `internal/bus/eventbus.go:50-61` | once the dispatcher has exited, every event accepted before Stop closed the channel has reached every handler registered when it was accepted |
| `EventBus.DrainedInRun` | `internal/bus/eventbus.go:50-61` | said of a run: an event accepted after a handler was registered and before the bus was stopped has been handed to that handler once the dispatcher has exited |
| `EventBus.OnlyStopStops` | `internal/bus/eventbus.go:87-101` | until Stop is called the dispatcher lives and no event is dropped |
| `EventBus.StopperAdvances` | `internal/bus/eventbus.go:97-109` | a Stop closes the handlers there are when the dispatcher is gone, one by one, and once |
| `EventBus.NoHandleAfterClose` | `internal/bus/eventbus.go:97-109` | no HandleEvent follows a Close |
| `EventBus.PublishNotBlockedForever` | `internal/bus/eventbus.go:87-94` | Publish can always return after Stop; before, it is held up only while the dispatcher can move |
| `EventBus.StopNotStuck` | `internal/bus/eventbus.go:97-109` | a pending Stop is never stuck: the dispatcher can move until it has exited, then the Stop can |
| `EventBus.DispatcherProgresses` | `internal/bus/eventbus.go:46-61` | every dispatcher action uses up work that only publishing and registering add, so draining ends |
| `EventBus.EventBus.DispatcherStep` | `internal/bus/eventbus.go:46-61` | a dispatcher move keeps the accepted events and the log so far, and leaves the buffer empty when it exits |
| `EventBus.EventBus.Publish` | `internal/bus/eventbus.go:87-94` | the event is accepted last in order, or dropped, and dropped only on a stopped bus |
| `EventBus.EventBus.Stop` | `internal/bus/eventbus.go:97-109` | everything accepted has been dispatched when the dispatcher ends, and every handler is then closed, in order, as the last thing in the log |
| `Versions.BumpVersion` | `internal/store/version.go:11-50` | v1.0.0 without a current version; otherwise fails exactly on an unknown bump, and the result reads back as the current version, its missing or unreadable parts taken as 1, 0 and 0, with one component counted up and the lesser ones reset |
| `Versions.ParsePrint` | `internal/store/version.go:11-33` | reading a printed version gives the version back |
| `Versions.ParseBare` | `internal/store/version.go:14-33` | a version without its leading v is read the same |
| `Versions.ParseShort` | `internal/store/version.go:19-33` | missing parts are taken as 0 |
| `Versions.ParseUnreadable` | `internal/store/version.go:19-24` | a string that is no number is read as 1.0.0 |
| `Versions.AtoiRefuses` | `internal/store/version.go:22-32` | a string with a character that is no digit, after the first, is no number |
| `Versions.AtoiReads` | `internal/store/version.go:22-32` | decimal numbers are read, with or without a sign, if they fit 64 bits |
| `Versions.BumpNames` | `internal/store/version.go:35-47` | the bumps are major, minor and patch, in upper or lower case |
| `Text.TrimSpaceOf` | `internal/store/version.go:14-14` | surrounding blanks are cut off, up to the first and last character that is none |
| `Versions.PrintInjective` | `internal/store/version.go:49-49` | different versions print differently |
| `Versions.BumpMovesForwardIff` | `internal/store/version.go:35-48` | the bumped version is newer exactly when the counted component is below 9223372036854775807; at that value it wraps around |
| `Store.SqliteStore.SaveDeployment` | `internal/store/store.go:333-345` | rejected exactly when the unique index already holds the key and version, then without effect; otherwise one row with the next id is appended |
| `Store.SqliteStore.UpdateDeploymentStatus` | `internal/store/store.go:362-370` | changes the status of the rows with this project, environment (default if empty) and version, and nothing else |
| `Store.SqliteStore.DeleteDeployment` | `internal/store/store.go:398-413` | removes exactly the rows with this project, environment (default if empty) and version, and says whether there were any |
| `Store.SqliteStore.GetLatestDeployment` | `internal/store/store.go:425-453` | the candidate row with the greatest (started_at, id), or none; running rows count unless excluded |
| `History.LatestIsNewest` | `internal/store/store.go:420-453` | the row read for a bump carries the newest version of its project and environment |
| `History.NextIsNewest` | `internal/store/store.go:420-423` | a version bumped from that row is newer than all others of the key, so it is not taken |
| `History.VersionsStrictlyIncrease` | `internal/store/store.go:420-453` | over every history of bumped saves, status updates and deletes under a clock that never goes back, versions of one key strictly increase in (started_at, id) order |
| `History.UniqueIndexNeverRejects` | `internal/store/store.go:340-344` | in such a history every deployment with a known bump adds its row: the unique index never rejects it |
| `History.DeployNext` | `internal/store/store.go:420-423` | read the latest row, bump, save: appends one row whose version is v1.0.0 for a new key and else the bump of the newest one, running rows included; fails exactly on an unknown bump of an existing version; keeps the invariant of the histories |
| `VersionOrder.LessTotal` | `internal/plugins/release_pruner/release_pruner.go:163-173` | any two different names are ordered one way and one way only |
| `VersionOrder.LessOfVersions` | `internal/plugins/release_pruner/release_pruner.go:153-173` | names of versions, each with or without its v, are compared as these versions, and by text if they stand for the same |
| `VersionOrder.LessOfBareVersions` | `internal/plugins/release_pruner/release_pruner.go:153-173` | in particular names without a v |
| `VersionOrder.LessOfOthers` | `internal/plugins/release_pruner/release_pruner.go:172-172` | a name that is no version is compared as text |
| `VersionOrder.SectionElevenExamples` | `internal/plugins/release_pruner/release_pruner.go:167-167` | the examples of section 11 of Semantic Versioning 2.0.0 come out in its order |
| `VersionOrder.PrecedesTotal` | `internal/plugins/release_pruner/release_pruner.go:167-167` | version precedence (section 11 of Semantic Versioning 2.0.0) orders any two different versions one way only |
| `VersionOrder.PrecedesTransitive` | `internal/plugins/release_pruner/release_pruner.go:167-167` | version precedence is transitive |
| `VersionOrder.TransitiveIffNotStraddled` | `internal/plugins/release_pruner/release_pruner.go:162-173` | the comparator is transitive on a set of names exactly when no two versions whose text order contradicts their precedence have a name that is no version between them |
| `VersionOrder.UniformNotStraddled` | `internal/plugins/release_pruner/release_pruner.go:162-173` | in particular when all names are versions or none is |
| `VersionOrder.MixedNamesGoInCircles` | `internal/plugins/release_pruner/release_pruner.go:162-173` | v2, v10 and v1a are ordered in a circle |
| `ReleasePruner.SortSlice` | `internal/plugins/release_pruner/release_pruner.go:163-173` | a permutation of the names, in order whenever the comparator orders them |
| `ReleasePruner.ReverseInPlace` | `internal/plugins/release_pruner/release_pruner.go:174-176` | the in-place loop reverses the slice |
| `ReleasePruner.SortVersionDirs` | `internal/plugins/release_pruner/release_pruner.go:162-177` | the names, permuted in place, newest first whenever the comparator orders them |
| `ReleasePruner.NewestFirstUnique` | `internal/plugins/release_pruner/release_pruner.go:162-177` | there is only one such arrangement, whatever the sorting algorithm |
| `ReleasePruner.RemoveOthers` | `internal/plugins/release_pruner/release_pruner.go:110-134` | exactly the safe names that are neither among the first `keep` nor the link target are removed |
| `ReleasePruner.Prune` | `internal/plugins/release_pruner/release_pruner.go:84-136` | for one host: exactly the listed names that are neither among the first keep nor the link target, have no slash and no two dots in a row are removed, so far as removal works; none of them is a newer version than one kept by rank if the comparator orders the names; keep below 1 is refused and removes nothing; at most keep+1 safe names are left if the listing is complete and every removal works |
| `ReleasePruner.RemovedAreOlder` | `internal/plugins/release_pruner/release_pruner.go:110-134` | every removed name is older than each of the `keep` names kept by rank, and is not the link target |
| `ReleasePruner.ListedNames` | `internal/plugins/release_pruner/release_pruner.go:89-97` | the names considered are the trimmed lines other than the empty one, . and .. |
| `ReleasePruner.AtMostKeepAndOne` | `internal/plugins/release_pruner/release_pruner.go:110-134` | at most keep+1 of the listed safe names are spared |
| `DnsZone.CollectIPs` | `internal/plugins/dns_record/provider.go:42-65` | exactly the valid addresses that hosts have, the public one if there is one, trimmed, once each |
| `Cloudflare.Classify` | `internal/plugins/dns_record/cloudflare.go:89-110` | which wanted addresses are served already, and which records with a value are wrong, whatever order they are listed in |
| `Cloudflare.Repurpose` | `internal/plugins/dns_record/cloudflare.go:112-152` | as many wrong records as there are missing addresses, or all of them, become records for different missing addresses; fails exactly on an unsupported type or a refused write |
| `Cloudflare.AddMissing` | `internal/plugins/dns_record/cloudflare.go:154-186` | one record is created for each address still missing |
| `Cloudflare.EnsureRecords` | `internal/plugins/dns_record/cloudflare.go:69-188` | on success every address is served with min(wrong, missing) updates and the rest created, no record is lost, and the values are exact iff no more records were wrong than addresses missing; with nothing missing nothing is written, so a second call writes nothing; a failed call has only repaired |
| `Cloudflare.EnsureTwice` | `internal/plugins/dns_record/cloudflare.go:69-188` | a second call after one that succeeded succeeds and writes nothing |
| `Cloudflare.SurplusStays` | `internal/plugins/dns_record/cloudflare.go:112-115` | a zone with one right and one wrong record: the call succeeds and the wrong one stays |
| `Cloudflare.AppliedConverges` | `internal/plugins/dns_record/cloudflare.go:112-186` | both loops together converge, from any records and any distinct address list |
| `Cloudflare.RepairsKeepServed` | `internal/plugins/dns_record/cloudflare.go:96-107` | an address that was served before is served after, even when a write failed in between |
| `Aliyun.DeleteWrong` | `internal/plugins/dns_record/aliyun.go:75-96` | exactly the wrong records of this name and type are deleted, although the listing is fuzzy, and the values left are known |
| `Aliyun.AddMissing` | `internal/plugins/dns_record/aliyun.go:98-113` | one record is added for each address not yet present |
| `Aliyun.EnsureRecords` | `internal/plugins/dns_record/aliyun.go:45-115` | on success the non-blank values for this name and type are exactly the wanted ones, with one write per wrong record and per missing address; when they already are nothing is written; a failed call has only deleted wrong records and added missing addresses |
| `Aliyun.EnsureTwice` | `internal/plugins/dns_record/aliyun.go:45-115` | a second call after one that succeeded succeeds and writes nothing |
| `Aliyun.ReplacedExactly` | `internal/plugins/dns_record/aliyun.go:75-113` | deleting the wrong and adding the missing yields exactly the wanted values |
| `Streams.FeedConcat` | `internal/core/eventlog_writer.go:24-41` | reading a stream in two pieces, cut anywhere, is reading it whole |
| `Streams.ReadsLines` | `internal/core/eventlog_writer.go:29-39` | for newline-free lines, each ended by a newline, and a newline-free rest, reading yields the lines that are not empty, and the rest |
| `Streams.MadeOfLines` | `internal/core/eventlog_writer.go:29-39` | every stream is made up of such lines and such a rest |
| `Streams.NonEmptyCount` | `internal/core/eventlog_writer.go:29-39` | the lines that count are those with something in them, as often as they come |
| `Streams.LinesAdded` | `internal/core/eventlog_writer.go:29-39` | reading on only adds lines, none empty and none with a newline in it |
| `EventLogWriter.LineWriter.Write` | `internal/core/eventlog_writer.go:24-41` | calls back and keeps exactly what reading the input on from the buffered rest yields; without a callback nothing happens; always reports the full length |
| `EventLogWriter.LineWriter.Flush` | `internal/core/eventlog_writer.go:44-53` | calls back the right-trimmed remainder unless it is empty, and empties the buffer |
| `EventLogWriter.TrimmedEnd` | `internal/core/eventlog_writer.go:48-48` | what is trimmed off the remainder is newlines and returns, and none of them is left at its end |
| `EventLogWriter.LineWriter.WriteAll` | `internal/core/eventlog_writer.go:24-53` | for every way of cutting a stream into writes, the callbacks are those of the whole stream |
| `EventLogWriter.CallbacksAreLines` | `internal/core/eventlog_writer.go:24-53` | the callbacks of a whole stream are its non-empty lines, then the rest without trailing returns |
| `PrefixWriter.PrefixedConcat` | `internal/plugins/remote_command/remote_command.go:29-56` | the output of a stream does not depend on where it is cut |
| `PrefixWriter.PrefixWriter.Write` | `internal/plugins/remote_command/remote_command.go:29-56` | the prefixed stream goes out whole exactly when the destination takes it, else as much of it as fits; the count with an error is the full length if the input does not end in a newline and everything up to and including the prefix of its last piece fits, and otherwise the number of bytes that went out |
| `PrefixWriter.CountRightIff` | `internal/plugins/remote_command/remote_command.go:42-46` | the count with an error is the number of bytes that went out exactly when the failure is not in an unterminated last piece behind its prefix |
| `PrefixWriter.CountedUnique` | `internal/plugins/remote_command/remote_command.go:29-56` | that number is determined by input, prefix and room |
| `PrefixWriter.WrongCount` | `internal/plugins/remote_command/remote_command.go:42-46` | an input for which three bytes are reported and two went out |
| `PrefixWriter.PrefixWriter.WriteAll` | `internal/plugins/remote_command/remote_command.go:29-56` | for every way of cutting a stream into writes, the output is the stream with the prefix at each line start |
| `SshPool.Pool.Lookup` | `pkg/sshutil/pool.go:62-74` | a valid pooled client is reused and touched, an invalid one is removed and closed |
| `SshPool.RoundClosesOnlyIdle` | `pkg/sshutil/pool.go:112-141` | under a clock that never goes back: a client that a keep-alive round closes was pooled when the round took its snapshot, and had by then not been handed out, stored or found alive for more than half the interval |
| `SshPool.RoundCloses` | `pkg/sshutil/pool.go:59-141` | a run in which a dial fails, is made again, and the client is pooled, found idle and closed |
| `SshPool.Pool.Check` | `pkg/sshutil/pool.go:122-139` | only the entry of the snapshot is touched or closed, not one that replaced it |
| `SshPool.Pool.Close` | `pkg/sshutil/pool.go:149-155` | every pooled client is closed once and the map is empty |
| `SshPool.EveryClientHasOnePlace` | `pkg/sshutil/pool.go:59-87` | over every interleaving of the lock sections each dialled client is in flight, pooled under its own key, closed or displaced, and in one of these only; no closed client is in the map |
| `SshPool.ClosedOnce` | `pkg/sshutil/pool.go:112-156` | the pool never closes a client twice |
| `SshPool.DisplacedNeedsOverlap` | `pkg/sshutil/pool.go:76-84` | a client is displaced from the map without being closed only when requests for one key overlap |
| `SshPool.OverlapIs` | `pkg/sshutil/pool.go:62-84` | requests overlap when one misses while another for its key is being dialled or about to be stored |
| `SshPool.StoreDisplacesIff` | `pkg/sshutil/pool.go:82-84` | a step displaces a client exactly when it stores one whose key is in the map |
| `SshPool.OverlapDisplaces` | `pkg/sshutil/pool.go:62-84` | two requests for one key that both miss: the second store displaces the first client |

## Left out

- Plugins and their effect on hosts, and what Rollback of a plugin restores: foreign side effects; each phase and the rollback get a fresh context, so data saved in Execute is not there in Rollback.
- Template rendering, `run_if` evaluation, target resolution, path resolution and YAML: outcomes are parameters; name and needs of an expanded step are set after rendering, and a step kind that rendering changes only affects the outcome.
- The shared variable map: a step can set a variable that another step's `run_if` reads, so in the source an outcome may depend on the schedule; the model fixes one outcome per step.
- Panics in handlers and plugins, dry runs, logging, timing, event payloads, and the status events published while a pipeline runs.
- EndToEnd.RunSource: states the barriers of a phase only if its items have distinct names.
- EndToEnd.DestroyPipeline: what destroy meets at a step is fixed per name, since it looks steps up by name; a step whose name a later phase uses again is then uninstalled as that later one.
- Parallel.ToleranceVerdict: floating point is modelled by reals, so rounding in the product of target count and tolerance is not captured; marking a target dead and counting it are one action, since nothing reads the blacklist of a step while it runs.
- Parallel.PercentIsShareIff: the text of the option is already split into number and percent sign; infinities and other special numbers are not modelled.
- EventBus.DrainedBeforeExit: events accepted after Stop closed the channel may stay in the buffer for good, as the source allows; a second Stop closes the handlers again.
- Store.SqliteStore.GetLatestDeployment: SQL is modelled by its effect on rows; ids grow with insertion as AUTOINCREMENT does; the project is given by its id instead of its name; start times are whole numbers; message, snapshot and output columns are not modelled, nor are database errors.
- History.DeployNext: the command that reads, bumps and saves is not among the modelled files; reading and saving count as one step, and fewer than 2^63 saves are assumed so that no component wraps around.
- Versions.BumpVersion: blanks are the ASCII ones and lower-casing is ASCII.
- Parallel.RunParallel: errors are not told apart; the delay between attempts is not timed.
- VersionOrder.PrecedesTotal: the version parser is a parameter; its precedence is the one of section 11 of Semantic Versioning 2.0.0, numbers are compared as numbers and build metadata is ignored.
- ReleasePruner.Prune: the shell commands are modelled by their results; a failing `rm` is ignored as in the source; names are compared character by character.
- Cloudflare.EnsureRecords: the listing is complete; TTL and proxying are not modelled; zone lookup and listing fail or succeed together; writes succeed up to a given number and then fail.
- Aliyun.EnsureRecords: the listing is complete (the source reads one page only) and matches the keyword as a substring; writes succeed up to a given number and then fail.
- PrefixWriter.PrefixWriter.Write: the destination is one that takes a given number of bytes and then fails.
- SshPool.EveryClientHasOnePlace: closing a client always succeeds; clients handed to callers may still be in use when the pool closes them; a client stored after Close stays pooled until the next Close, as in the source.
- DeleteRecords of the DNS providers, the remaining store queries, the terminal interface, the CLI, credentials, archives and file transfer: none of them takes part in ordering, scheduling, rollback or the protocols above.
