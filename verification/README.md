# Pequod: a verified model of graph execution, reconciliation and caching

Pequod turns a platform description into a graph of Kubernetes resources, applies that graph in
dependency order, prunes what is no longer wanted and caches the modules it loads. This project models
the parts that carry the logic and proves, in Dafny, what they guarantee.

| files | what they hold |
|---|---|
| `Graph.dfy`, `Paths.dfy`, `Dag.dfy` | the graph artifact, its validation, and building the executable DAG |
| `State.dfy`, `Machine.dfy` | per-node state and the parallel executor as a transition system: one program counter per goroutine, every schedule allowed |
| `Invariant.dfy`, `StepMeaning.dfy`, `Safety.dfy`, `Termination.dfy` | what every step does and keeps; dependency safety, one `Apply` per node, bounded concurrency; bounds on waves and steps, no deadlock |
| `Refinement.dfy`, `Outcomes.dfy`, `Executor.dfy` | parallel waves refine a sequential walk; the executor's own loops are runs of the machine |
| `Polling.dfy` | the readiness wait and its bounds |
| `Reconciler.dfy`, `Phases.dfy` | the ResourceGraph phase machine over whole histories; what the recorded phase means |
| `CacheModel.dfy`, `CacheNames.dfy`, `CacheRefinement.dfy`, `CacheHistory.dfy`, `CacheInclusion.dfy`, `CachePersist.dfy`, `CacheReopen.dfy`, `CacheReopenClock.dfy`, `CacheSessions.dfy`, `DiskCache.dfy` | the disk cache: values, file names, refinement to a bounded map, meaning of a lookup, LRU inclusion, save and load, traces with reopenings, and the mutable object |
| `Tracker.dfy`, `Pruner.dfy` | inventory and pruning |
| `OciRef.dfy` | OCI reference parsing |

`Apply`, the readiness checks, the Kubernetes API, the clock and file writes are parameters or arbitrary
answers. A run of the executor is any schedule of actions, where each locked `ExecutionState` call, each
answer, each backoff and each pool hand-over is one action, and cancellation may arrive at any point.
Queued goroutines may start in any order, which includes the pool's own. The graph library appears by its
documented behaviour: `AddEdge` refuses a repeated edge and an edge that closes a cycle, and the sort is
Kahn's algorithm (LIBRARIES.md:46).

## What the code does that a reader might not expect

- A retry never applies again: it spends budget and is then refused, because the table has no move from
  Error to Applying (`Safety.OnlyRetriesAreRefused`, `Safety.AppliedAtMostOnce`). The comments speak of
  retrying.
- A graph whose only failures are leaves is recorded as Completed, with the message that all resources
  were applied (`Phases.CompletedWithFailure`).
- A spec edit that arrives while the graph executes settles a generation nobody ran
  (`Reconciler.EditInsideLosesASpec`); a lost final status write or an outdated read runs a generation
  again (`Reconciler.RunsAgainIffWriteLost`, `Reconciler.OutdatedReadReruns`).
- Two cache keys with the same sanitized name overwrite each other
  (`CacheHistory.ReadsLatestIffNamesDistinct`). Manifest digests never do (`CacheNames.DigestNamesDistinct`),
  but Git paths such as "a/b" and "a_b" do (`CacheNames.GitPathsCollide`).
- With expiry a smaller cache can hold a key that a larger one has dropped
  (`CacheInclusion.ExpiryBreaksInclusion`, `CacheInclusion.IncludedIffNeverSplit`).
- A key deleted after the index could not be read can come back with its old bytes, if that delete cannot
  write the index (`CacheReopen.ReopenReadsLatestIff`, `CacheReopenClock.ForwardReopenReadsLatestIff`).
- An inventory item stored under a key other than its ID, as a loaded inventory may hold it, can be deleted
  again and again (`Pruner.DeletedAgainIff`, `Pruner.MisfiledIsDeletedTwice`).
- With a capacity below one the eviction loop never ends (`CacheModel.EvictionEndsIff`).
- The index is loaded before a custom time to live is set, so the default of 24 hours decides what is kept.
- Dry run does not protect the inventory: items whose object is gone are removed under every policy, and
  under the orphan policy items are released (`Pruner.DryRunKeepsInventory`).
- A bare image name is refused, so the Docker Hub `library/` prefix is never added
  (`OciRef.BareNameRefused`, `OciRef.ParseMeaning`).
- Validation fills policy defaults into copies of the nodes only. The readiness delay has no jitter,
  although a comment says so.

## Model

| member | source | states |
|---|---|---|
| `GraphTypes.Validate` | pkg/graph/validation.go:8-88 | returns nil iff name and version are set, IDs are non-empty and distinct, and every node has its object fields, existing dependencies, a known policy and known predicates; which fault is reported first, and that it is really present |
| `GraphTypes.PredicateChecks` | pkg/graph/validation.go:122-147 | a predicate is accepted iff its timeout is not negative and its type is Exists, DeploymentAvailable, or ConditionMatch with both strings |
| `GraphTypes.PolicyChecks` | pkg/graph/validation.go:90-119 | a policy is accepted iff mode and conflict policy are empty or one of the known words |
| `GraphTypes.DefaultsMeaning` | pkg/graph/validation.go:91-103 | each default replaces an empty field only |
| `DagBuilder.CreatesCycle` | pkg/graph/dag.go:57-59 | the library's cycle check: true exactly when the target already reaches the source |
| `DagBuilder.AddEdges` | pkg/graph/dag.go:53-61 | one node's edges are all added, or the refusal is due to a repeated dependency or a cycle; the edge set stays acyclic |
| `DagBuilder.AddAllEdges` | pkg/graph/dag.go:53-61 | in any node order, all edges are added exactly when no dependency is repeated and the relation is acyclic |
| `DagBuilder.TopologicalSort` | pkg/graph/dag.go:63-67 | succeeds iff the relation is acyclic, with every vertex once and predecessors first |
| `DagBuilder.BuildDAG` | pkg/graph/dag.go:23-74 | succeeds iff the graph is valid, no node lists a dependency twice and no chain of dependencies returns to its start; then it holds the nodes under their IDs and orders each once, every dependency before its dependents; which error is returned otherwise, with the offending edge |
| `Paths.AddEdgeKeepsAcyclic` | pkg/graph/dag.go:34-61 | an edge whose target does not reach its source keeps the relation acyclic |
| `Paths.StuckMeansCyclic` | pkg/graph/dag.go:63-67 | when every remaining vertex has a remaining predecessor there is a cycle, so the sort of an acyclic graph never gets stuck |
| `NodeStates.TableShape` | pkg/graph/state.go:273-309 | the table only moves forward, apart from Error to Pending; nothing leaves Ready and Error never leads to Applying |
| `NodeStates.AllowedMeaning` | pkg/graph/state.go:273-309 | the permitted moves, written out |
| `NodeStates.SetStateMeaning` | pkg/graph/state.go:107-135 | what a state change does to every field of the status, and to no other node |
| `NodeStates.RecordingMeaning` | pkg/graph/state.go:138-168 | what recording an error or a retry does to every field of the status, and to no other node |
| `NodeStates.ExecutionState.SetState` | pkg/graph/state.go:107-135 | accepted exactly when the node exists and the table allows it; then state and time stamps change as specified, else nothing |
| `NodeStates.ExecutionState.SetError` | pkg/graph/state.go:138-151 | moves any known node to Error with the message, unchecked by the table |
| `NodeStates.ExecutionState.IncrementRetry` | pkg/graph/state.go:154-168 | raises the retry count of a known node by one and stamps it |
| `NodeStates.ExecutionState.IsComplete` | pkg/graph/state.go:197-207 | true iff every node is Ready or Error |
| `NodeStates.ExecutionState.constructor` | pkg/graph/state.go:65-77 | exactly the given nodes, all Pending |
| `Invariant.ReadyNodesAll` | pkg/graph/executor.go:109-149 | a node is selected iff it is Pending, or in Error with retries left, and all its dependencies are Ready |
| `Invariant.ReadyNodesInOrder` | pkg/graph/executor.go:113-149 | the selected nodes come in the order of the DAG |
| `Invariant.StepLocalKeeps` | pkg/graph/executor.go:173-238 | each step of `executeNode` keeps what its goroutine knows about its node, whatever answer it gets |
| `Invariant.ActKeepsInv` | pkg/graph/executor.go:74-238 | every action of every goroutine, of the wave loop and of cancellation keeps the system invariant |
| `Invariant.RunKeepsInv` | pkg/graph/executor.go:74-238 | the invariant holds in every state of every schedule |
| `StepMeaning.PossibleSteps` | pkg/graph/executor.go:152-238 | cancellation can come at any time, a started goroutine can always go on with a good or a bad answer, and a queued one can start iff fewer than MaxConcurrency are running |
| `StepMeaning.LoopStep` | pkg/graph/executor.go:84-107 | each step of the wave loop: nil when all nodes are Ready or Error or none can start, an error on cancellation, otherwise a wave of exactly the nodes that can start |
| `StepMeaning.GoroutineStepMeaning` | pkg/graph/executor.go:173-238 | each step of a goroutine in every reachable state: where it goes, every status field with its time and message, one counted call of `Apply`, and no other node touched |
| `StepMeaning.ReadyNeedsAnswer` | pkg/graph/executor.go:210-235 | in every run a node with readiness predicates is Ready only after its readiness wait was answered well |
| `StepMeaning.CancelledStartsNoWave` | pkg/graph/executor.go:86-91 | once cancelled no further wave starts, except one being selected just then |
| `Safety.ReadyIsPermanent` | pkg/graph/state.go:137-151 | although `SetError` is unguarded, no run takes a node out of Ready |
| `Safety.DependencySafety` | pkg/graph/executor.go:113-207 | when `Apply` is called for a node, every transitive dependency is Ready and stays Ready however the run continues |
| `Safety.AppliedAtMostOnce` | pkg/graph/executor.go:179-207 | each node is applied at most once, exactly once when it ends Ready or Error, and retries never exceed the budget |
| `Safety.OnlyRetriesAreRefused` | pkg/graph/executor.go:193-201 | the only refused request is a retry asking for Applying from Error |
| `Safety.ConcurrencyBound` | pkg/graph/executor.go:151-170 | at most MaxConcurrency nodes are Applying or WaitingReady, and between waves none |
| `Safety.TimestampsTell` | pkg/graph/state.go:121-132 | start, ready and retry times are set exactly when the node left Pending, is Ready, was retried; the end time exactly after a nil return |
| `Refinement.WavesRefineWalk` | pkg/graph/executor.go:74-238 | for fixed outcomes every interleaving that returns nil ends in the states of a one-by-one walk in dependency order |
| `Refinement.WalkMeaning` | pkg/graph/executor.go:109-149 | the walk gives Pending iff an ancestor fails, else Ready or Error by the node's own outcome |
| `Refinement.ReturnMeaning` | pkg/graph/executor.go:74-238 | over the fields of the nodes: Ready iff `Apply` accepts the node, it has no readiness predicates or becomes ready, and the same holds of everything it depends on; Error iff only the node itself fails; Pending otherwise |
| `Refinement.AnyTimeMeaning` | pkg/graph/executor.go:74-107 | at any moment of any run, cancelled or not, everything a node depends on works once it has left Pending, and Ready or Error tells whether it works itself; a return, even with an error, leaves each node Pending or in the walk's state |
| `Refinement.Confluence` | pkg/graph/executor.go:74-170 | two runs with the same outcomes end alike under different orders, concurrency limits and retry budgets |
| `Refinement.StuckShape` | pkg/graph/executor.go:84-149 | after a nil return the Pending nodes are exactly the strict descendants of Error nodes, and if there is one, every Error node has used its whole retry budget |
| `OutcomesExist.EveryRunHasOutcomes` | pkg/graph/executor.go:203-235 | the answers of any schedule come from one outcome per node |
| `OutcomesExist.EveryRunRefinesSomeWalk` | pkg/graph/executor.go:74-238 | every run that returns nil, whatever was answered, ends in the states of a sequential walk |
| `Termination.WaveMakesProgress` | pkg/graph/executor.go:84-103 | an uncancelled wave moves a node out of Pending or raises a retry count |
| `Termination.ActLowersRank` | pkg/graph/executor.go:74-238 | every action lowers a natural-number measure |
| `Termination.EveryRunIsBounded` | pkg/graph/executor.go:84-103 | every schedule has at most N*(1+MaxRetries) waves and a bounded number of steps, without fairness |
| `Termination.NextStep` | pkg/graph/executor.go:84-170 | until `Execute` returns there is always a next step other than cancelling |
| `Termination.CanFinish` | pkg/graph/executor.go:84-107 | whatever happened so far, the run can be finished without cancelling |
| `Termination.UncancelledRunReturnsNil` | pkg/graph/executor.go:84-107 | an uncancelled run that cannot go on has returned nil |
| `Executor.FindReadyNodes` | pkg/graph/executor.go:113-149 | the loops return exactly the selected nodes in order |
| `Executor.ExecuteNode` | pkg/graph/executor.go:173-238 | line by line it is the goroutine program of the machine and changes no other node; it errs iff the node is not Ready |
| `Executor.RunGoroutine` | pkg/graph/executor.go:152-170 | the machine can run one started goroutine to its end while the others stand still |
| `Executor.ExecuteNodes` | pkg/graph/executor.go:152-170 | a wave with one worker, cancelled at any task or never, is a run of the machine that finishes every goroutine |
| `Executor.Execute` | pkg/graph/executor.go:74-107 | with one worker it terminates and is a run of the machine; a nil return leaves every node in the walk's state, an error return in that state or Pending; without cancellation there is no error |
| `Polling.ReadinessTimeout` | pkg/graph/executor.go:242-251 | the larger of five minutes and the largest predicate timeout |
| `Polling.DelayInRange` | pkg/graph/executor.go:257-282 | the delay never decreases and stays between 1 and 30 seconds |
| `Polling.DelayGrows` | pkg/graph/executor.go:257-282 | it starts at one second and grows by exactly 1.5 until it stays at 30 seconds |
| `Polling.GoesOnMeaning` | pkg/graph/executor.go:269-282 | the wait goes on iff the answer was "not yet" and the next delay ends before the timeout and before any cancellation, counting all checks and delays so far |
| `Polling.DelaysFit` | pkg/graph/executor.go:257-282 | delays that fit the timeout number at most 6.5 + timeout/30s, which bounds the checks |
| `Polling.WaitForReadiness` | pkg/graph/executor.go:241-284 | ends at the first check that is ready, fails, or leaves no room for the next delay before the deadline (at a tie either way), with the matching result, after at most 10 + timeout/30s checks |
| `Reconciler.ResourceGraph.Reconcile` | internal/controller/resourcegraph_controller.go:84-155 | the stored object, the requeue request and the error after one call, with every early return, failing call and outdated read |
| `Reconciler.ResourceGraph.ExecuteGraph` | internal/controller/resourcegraph_controller.go:158-233 | the status writes around an execution, stamped with the re-fetched generation |
| `Reconciler.FinalizerMeaning` | internal/controller/resourcegraph_controller.go:101-140 | one call without work: deletion removes the finalizer, a new object gets it, a settled one is left alone; nothing else changes, and which calls are errors or requeued |
| `Reconciler.WorkMeaning` | internal/controller/resourcegraph_controller.go:141-233 | one call with work: a stored rejection is Failed, a stored start Executing, a stored end Completed iff there was no error and the state was complete; the stamped generation, the requeue request and the error |
| `Reconciler.PhaseTellsLastWrite` | internal/controller/resourcegraph_controller.go:488-632 | over every history the stored phase tells the last status write that was stored |
| `Reconciler.DeletionCompletes` | internal/controller/resourcegraph_controller.go:342-359 | an object being deleted keeps its finalizer exactly until the first call that finds it and can write, and is never executed again |
| `Reconciler.AtMostOncePerGeneration` | internal/controller/resourcegraph_controller.go:116-146 | over every history `Execute` never runs before the finalizer is stored or, on a fresh read, during deletion, and per generation at most once more than its final writes were lost or it was executed from an outdated read |
| `Reconciler.RunsAgainIffWriteLost` | internal/controller/resourcegraph_controller.go:131-146 | a generation just executed can run again, through any later calls with fresh reads, iff its final write was lost and no edit superseded it |
| `Reconciler.NextCallRunsAgain` | internal/controller/resourcegraph_controller.go:131-146 | the next call that can execute runs the same generation again under exactly that condition |
| `Reconciler.LostWriteRunsTwice` | internal/controller/resourcegraph_controller.go:621-624 | a history in which a lost final write runs a generation twice |
| `Reconciler.OutdatedReadReruns` | internal/controller/resourcegraph_controller.go:101-146 | after any history, one more call with an outdated read, all its writes stored, can rerun any generation that was ever executed |
| `Reconciler.OutdatedReadRunsTwice` | internal/controller/resourcegraph_controller.go:101-146 | a history in which one outdated read runs a generation twice although no write is lost |
| `Reconciler.SettledWasDealtWith` | internal/controller/resourcegraph_controller.go:488-632 | with fresh reads and no edit inside a call, a terminal phase belongs to a generation that was executed or rejected |
| `Reconciler.EditInsideIsSkipped` | internal/controller/resourcegraph_controller.go:498-619 | a call settles the generation it worked on iff that one was still current at the start and no edit fell inside the call |
| `Reconciler.EditInsideLosesASpec` | internal/controller/resourcegraph_controller.go:550-619 | a history that settles a generation nobody ran |
| `Reconciler.ComingBackMeaning` | internal/controller/resourcegraph_controller.go:97-146 | exactly why a call comes back, by request or by error; one that does not leaves the graph settled, deleted or not found; after an incomplete execution coming back changes nothing |
| `Reconciler.IdleUntilEdited` | internal/controller/resourcegraph_controller.go:129-146 | a settled graph is left alone by any number of calls until its spec is edited, and the edit is then executed |
| `Phases.PhaseMeaning` | internal/controller/resourcegraph_controller.go:592-617 | Completed iff no node is left Pending; for an uncancelled run iff no failed node has a dependent; an error return implies an incomplete state |
| `Phases.CompletedWithFailure` | internal/controller/resourcegraph_controller.go:593-604 | an execution with a failed node that is recorded as Completed |
| `CacheModel.Sanitize` | pkg/platformloader/disk_cache.go:282-300 | keeps letters, digits, '-', '_' and '.', and turns every other character into '_' |
| `CacheNames.SamePathIff` | pkg/platformloader/disk_cache.go:275-300 | two keys share a file iff they have the same length and show the same characters |
| `CacheNames.DigestNamesDistinct` | pkg/platformloader/oci.go:82-131 | manifest digests never share a file |
| `CacheNames.DigestLookup` | pkg/platformloader/oci.go:82-131 | over every trace on digests a lookup returns the latest stored bytes, and misses iff never stored, left, or too old, without any assumption on file names |
| `CacheNames.GitPathsCollide` | pkg/platformloader/git.go:126-132 | in every repository at every commit, two paths that show alike share a file |
| `CacheModel.Evicted` | pkg/platformloader/disk_cache.go:161-164 | after the eviction loop there is room for one more entry |
| `CacheModel.EvictionEndsIff` | pkg/platformloader/disk_cache.go:161-164 | the eviction loop ends iff the capacity is at least one |
| `CacheRefinement.BackIsOldest` | pkg/platformloader/disk_cache.go:314-322 | the back of the list is the unique least recently touched key |
| `CacheRefinement.DoRefines` | pkg/platformloader/disk_cache.go:102-234 | each operation keeps the relation to the bounded map and returns what the map returns |
| `CacheRefinement.RunRefines` | pkg/platformloader/disk_cache.go:102-234 | from any cache that stands for a bounded map, also one with more entries than its capacity, every trace keeps standing for the map and returns what the map returns |
| `CacheRefinement.CacheRefinesMap` | pkg/platformloader/disk_cache.go:102-234 | over every trace of keys with distinct file names the cache behaves as a bounded least-recently-used map and never exceeds its capacity |
| `CacheHistory.BornMeaning` | pkg/platformloader/disk_cache.go:144-159 | age counts from the store that ended the key's last absence |
| `CacheHistory.AbsenceMeaning` | pkg/platformloader/disk_cache.go:102-234 | a key is absent iff it was never stored, or left and was not stored since |
| `CacheHistory.LookupMeaning` | pkg/platformloader/disk_cache.go:103-137 | a lookup returns the latest stored bytes, and misses iff never stored, left, or too old |
| `CacheHistory.NewKeyFits` | pkg/platformloader/disk_cache.go:152-168 | setting a new key leaves at most maxEntries entries, even from an overlong list |
| `CacheHistory.GotMeaning` | pkg/platformloader/disk_cache.go:103-137 | for any cache, a lookup hits iff the key is held, young enough and has a file; a hit returns the file and moves the key to the front, after a miss the key is not held |
| `CacheHistory.AliasedKeysMix` | pkg/platformloader/disk_cache.go:275-300 | two keys with one file name and room for both: setting one changes what the other returns |
| `CacheHistory.ReadsLatestIffNamesDistinct` | pkg/platformloader/disk_cache.go:275-300 | lookups always return the latest bytes iff file names are distinct or there is room for one entry only |
| `CacheHistory.SanitizeCollides` | pkg/platformloader/disk_cache.go:282-300 | "a/b" and "a:b" have the same file name |
| `CacheInclusion.StepIncluded` | pkg/platformloader/disk_cache.go:115-168 | one operation on two capacities, with the same verdict on shared keys, keeps the smaller list a subsequence that lacks no more keys than the capacities differ |
| `CacheInclusion.SameVerdictIncludes` | pkg/platformloader/disk_cache.go:102-206 | under any clock, while both caches find the same shared keys expired, the smaller is included in the larger |
| `CacheInclusion.SmallerIsIncluded` | pkg/platformloader/disk_cache.go:102-206 | under any clock, over a trace in which no lookup or prune meets an expired entry in either cache, what a smaller cache holds a larger one holds too, even when writes fail |
| `CacheInclusion.IncludedIffNeverSplit` | pkg/platformloader/disk_cache.go:115-120 | with a forward clock the smaller cache is included throughout a trace iff no lookup or prune finds a key expired in the larger one that the smaller holds unexpired |
| `CacheInclusion.LargerUnexpiredIncludes` | pkg/platformloader/disk_cache.go:115-120 | with a forward clock it is enough that the larger cache never meets an expired entry |
| `CacheInclusion.ExpiryBreaksInclusion` | pkg/platformloader/disk_cache.go:115-120 | a trace on which expiry breaks inclusion |
| `CachePersist.LoadKeeps` | pkg/platformloader/disk_cache.go:325-364 | loading keeps exactly the young entries with a file, in order, and removes exactly the stale files |
| `CachePersist.KeptMeaning` | pkg/platformloader/disk_cache.go:341-356 | an entry is kept iff it is at most a day old and its file exists |
| `CachePersist.SaveLoadRoundTrip` | pkg/platformloader/disk_cache.go:325-397 | any reachable cache, saved and reopened, comes back in order less only the entries older than the default time to live |
| `CachePersist.ReopenAfterWrite` | pkg/platformloader/disk_cache.go:177-199 | after a Set, Delete or Prune that wrote the index, the index is the list in memory, and reopening gives it back less the old entries |
| `CachePersist.ListOrderedByAccess` | pkg/platformloader/disk_cache.go:131-168 | with a clock that does not run backwards the list is always ordered by last access |
| `CacheSessions.SessionsRefineMap` | pkg/platformloader/disk_cache.go:66-397 | over every trace of operations and reopenings, under changing capacities and times to live, in which the index can be written and read, the cache stands for a bounded map, where reopening forgets only the lookups since the last index write and the cells older than the default time to live |
| `CacheSessions.ReopenDurable` | pkg/platformloader/disk_cache.go:325-364 | one reopening, also under a smaller capacity, leaves exactly the young cells, with the recency of the last index write |
| `CacheReopen.ReopenReadsLatestIff` | pkg/platformloader/disk_cache.go:303-397 | under any clock, also one that may run backwards: over every trace with reopenings and failing index writes, lookups (also after one more reopening) return the latest bytes or miss iff no delete of a key that is on disk but not in memory fails to write the index |
| `CacheReopenClock.ForwardReopenReadsLatestIff` | pkg/platformloader/disk_cache.go:303-397 | with a clock that does not run backwards, the same iff no such delete fails while the place of the key in the index is young enough to be loaded |
| `CacheReopen.ReadableReopensReadLatest` | pkg/platformloader/disk_cache.go:325-397 | when every reopening can read the index, lookups return the latest bytes or miss, however many index writes fail |
| `CacheReopen.ResurrectedIsRead` | pkg/platformloader/disk_cache.go:190-199 | after such a failing delete a reopening at some time, possibly an earlier one, returns the deleted bytes |
| `CacheReopenClock.ResurrectedByIsRead` | pkg/platformloader/disk_cache.go:190-199 | if the place of the key in the index is young enough, a reopening right then returns the deleted bytes |
| `CacheReopen.UnreadableIndexResurrects` | pkg/platformloader/disk_cache.go:86-89 | an unreadable index and then a failing delete lead there |
| `CacheReopen.ReopenedMeaning` | pkg/platformloader/disk_cache.go:66-100 | reopening never changes the index, and with an unreadable or missing index no file |
| `DiskCaches.DiskCache.RemoveEntry` | pkg/platformloader/disk_cache.go:303-312 | list, map and file lose exactly the key; list and map stay in bijection |
| `DiskCaches.DiskCache.Get` | pkg/platformloader/disk_cache.go:103-137 | new state and result are those of the cache function; list and map stay in bijection |
| `DiskCaches.DiskCache.Evict` | pkg/platformloader/disk_cache.go:161-164 | the eviction loop terminates for a capacity of at least one, with the specified result |
| `DiskCaches.DiskCache.Set` | pkg/platformloader/disk_cache.go:140-187 | new state, including failed writes; list and map stay in bijection |
| `DiskCaches.DiskCache.Delete` | pkg/platformloader/disk_cache.go:190-206 | new state of the cache and its index |
| `DiskCaches.DiskCache.Clear` | pkg/platformloader/disk_cache.go:209-234 | everything is gone, the index file included; if the directory cannot be listed an error is returned and nothing has changed |
| `DiskCaches.DiskCache.Prune` | pkg/platformloader/disk_cache.go:400-426 | exactly the expired entries go, in whatever order the map is visited |
| `DiskCaches.DiskCache.SaveMetadata` | pkg/platformloader/disk_cache.go:367-397 | the index becomes the list of entries in recency order |
| `DiskCaches.DiskCache.LoadMetadata` | pkg/platformloader/disk_cache.go:325-364 | rebuilds list and map from the index, in bijection |
| `Inventory.SortById` | pkg/inventory/tracker.go:250-252 | sorted by ID and a permutation of the input |
| `Inventory.LessMeaning` | pkg/inventory/tracker.go:250-252 | the order of IDs: a proper prefix, or the smaller character at the first difference |
| `Inventory.OrphanListUnique` | pkg/inventory/tracker.go:231-255 | the orphan list does not depend on the order in which the map is visited |
| `Inventory.Tracker.FindOrphaned` | pkg/inventory/tracker.go:231-255 | every unpruned item whose key is outside the current set, once, marked orphaned, in order of ID, for any inventory; strictly ordered when items are stored under their own ID |
| `Inventory.Tracker.MarkOrphaned` | pkg/inventory/tracker.go:258-269 | exactly the listed tracked items become orphaned |
| `Inventory.Tracker.Record` | pkg/inventory/tracker.go:97-154 | the item replaces any earlier one under its ID |
| `Inventory.Tracker.RecordPruned` | pkg/inventory/tracker.go:157-166 | a tracked item becomes pruned, an unknown ID changes nothing |
| `Inventory.Tracker.Remove` | pkg/inventory/tracker.go:169-175 | the item is gone and the generation rises even for an unknown ID |
| `Pruner.Prune` | pkg/apply/pruner.go:106-192 | inventory, cluster and report after handling every orphan in ID order, for any inventory |
| `Pruner.FateMeaning` | pkg/apply/pruner.go:126-188 | the fate of each orphan, by annotations, times, options and failures |
| `Pruner.ConditionsMeaning` | pkg/apply/pruner.go:261-302 | what protects an object, and when its grace period is over |
| `Pruner.OrphanPolicyReleases` | pkg/apply/pruner.go:184-187 | under the orphan policy, dry run or not, a ripe orphan leaves the inventory and is reported as released |
| `Pruner.DeletePolicyDeletes` | pkg/apply/pruner.go:166-182 | under the delete policy in a real call a ripe orphan loses its object, is marked pruned and reported as pruned |
| `Pruner.FailedDeleteKeeps` | pkg/apply/pruner.go:172-177 | a failed deletion is reported as an error and changes nothing else |
| `Pruner.DryRunReports` | pkg/apply/pruner.go:168-171 | in a dry run under the delete policy a ripe orphan is reported and the cluster stays |
| `Pruner.SparedStays` | pkg/apply/pruner.go:144-164 | an unreadable, protected or young orphan keeps its object and its entry, and is reported accordingly |
| `Pruner.ReportExact` | pkg/apply/pruner.go:120-189 | each list of the report is exactly the orphans whose fate belongs there, in order |
| `Pruner.OneOutcomeEach` | pkg/apply/pruner.go:120-189 | for any inventory, the lists of the report and the orphans that are gone or in grace together hold every orphan exactly as often as the orphan list |
| `Pruner.OutcomeFollowsFate` | pkg/apply/pruner.go:120-189 | when no orphan is listed twice, each is in exactly one list unless it is gone or in grace, and then in none |
| `Pruner.InventoryAfter` | pkg/apply/pruner.go:137-188 | for any inventory and every key: what gone and released orphans name leaves, what deleted ones name is marked pruned, all else stays as it was |
| `Pruner.DeletesAreAllowed` | pkg/apply/pruner.go:152-182 | objects only disappear, and only unprotected, past their grace period, in a real call under the delete policy |
| `Pruner.PruneDeletesOnlyOrphans` | pkg/apply/pruner.go:106-192 | for any inventory, a deleted object belonged to an unpruned item whose key is outside the current node set |
| `Pruner.DryRunKeepsCluster` | pkg/apply/pruner.go:166-188 | a dry run, or a policy other than Delete, leaves the cluster unchanged |
| `Pruner.DryRunKeepsInventory` | pkg/apply/pruner.go:137-187 | a dry run removes exactly the items whose object is gone or, under the orphan policy, could be released; it leaves the inventory alone iff there is none |
| `Pruner.DryRunDropsItems` | pkg/apply/pruner.go:137-187 | every item can be removed by a dry run, under the delete policy as well as under the orphan policy |
| `Pruner.DeletedAgainIff` | pkg/apply/pruner.go:172-181 | for any inventory, an item that was deleted can be deleted again without being recorded or marked in between iff no orphan of that call that names its key was gone, released or deleted |
| `Pruner.DeletedAtMostOnce` | pkg/apply/pruner.go:172-181 | an item stored under its own ID is never deleted again unless it is recorded again or marked |
| `Pruner.MisfiledIsDeletedTwice` | pkg/inventory/tracker.go:82-95 | an item stored under another key can be deleted twice |
| `OciRef.ParseOCIRef` | pkg/platformloader/oci.go:148-194 | the step-by-step parser computes the specified parse |
| `OciRef.SplitCovers` | pkg/platformloader/oci.go:150-166 | the cut loses nothing, and the parts respect the format |
| `OciRef.SplitMeaning` | pkg/platformloader/oci.go:150-166 | there is a digest iff there is an '@', and a tag iff some ':' before it is followed by no '/' |
| `OciRef.ParseMeaning` | pkg/platformloader/oci.go:168-193 | fails iff no '/' remains before tag and digest; which parts are returned, with the tag default; `library/` is never added |
| `OciRef.ParsePrinted` | pkg/platformloader/oci.go:148-194 | all four written forms parse back to their parts |
| `OciRef.ParsePrintedHub` | pkg/platformloader/oci.go:179-191 | a first component that is not a registry belongs to the Docker Hub repository |
| `OciRef.BareNameRefused` | pkg/platformloader/oci.go:173-177 | a bare image name is refused |

## Left out

- `Executor.Execute`: the imperative loop runs a wave with one worker; all other interleavings are covered by the transition system, not by this method.
- `Executor.ExecuteNodes`: the same, one worker only.
- `DiskCaches.DiskCache.Set`: requires a capacity of at least one for a new key, because with less the eviction loop does not end (`CacheModel.EvictionEndsIff`).
- `DiskCaches.DiskCache.Evict`: the same, a capacity of at least one.
- `DiskCaches.DiskCache.LoadMetadata`: requires distinct keys in the index file, as every saved index has.
- `Polling.WaitForReadiness`: does not model overflow of a timeout of more than 292 years.
- `Reconciler.ResourceGraph.Reconcile`: conversion, validation and DAG building appear as one verdict.
- `Reconciler.ResourceGraph.ExecuteGraph`: per-node status entries, conditions, events and the adoption phase are not modelled; the status write after adoption changes neither phase nor observed generation.
- Retry backoff delays (`calculateBackoff`): they decide when, not what.
- `GetDependents`, `GetRootNodes`, `GetLeafNodes`, summaries and other plain queries: they would only add easy members.
- Internals of the graph and pool libraries: modelled by their documented behaviour only.
- Kubernetes calls, Server-Side Apply, events, logging and metrics: parameters or an abstract cluster map.
- JSON, hashing and duration parsing: taken as lossless, opaque or a parameter.
- Failing removals of single cache files, and outside changes to the cache directory: not modelled.
- CUE evaluation, rendering, schema extraction, OCI, Git and ConfigMap fetching, RBAC and CRD generation, the adopter and `PruneByIDs`: not modelled.
