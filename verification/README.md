# Proofs about the mount graph, the pool sync, the controllers and the codecs

This project models the parts of the repository in which several pieces of state have to agree, and
proves that they do, or says exactly when they do not. `dafny verify dfyconfig.toml` checks everything.
Files follow the components:

| file | component |
|---|---|
| `Basics.dfy` | what several components share |
| `Graphs.dfy` | finite directed graphs: walks, reachability, roots, multitrees |
| `MultiTree.dfy` | the webhook's mount graph with its cached root sets, as a class over a heap of nodes |
| `Webhook.dfy` | whole runs of graph operations, the batch of mounts of a created object, and the creation of objects one after the other |
| `PoolSync.dfy`, `SyncRuns.dfy`, `ExactlyOnce.dfy` | the sync agent as a class; its runs among appends, failures, crashes and restarts; exactly-once |
| `MergePatch.dfy`, `ApiServer.dfy` | JSON merge patches (section 2 of RFC 7396); one model with resource version and generation, its other writers, and `check_gen_and_patch_spec` |
| `LakePoller.dfy`, `Reconciler.dfy` | the controllers that rest on that guard |
| `Mounter.dfy`, `MounterSteps.dfy` | so does the mounter: its runs and what was seen; what its steps copy, push and mark |
| `CrdPatcher.dfy` | the worklist that expands mounted CRDs |
| `YieldPolicy.dfy`, `YieldRuns.dfy` | handing over active mounts by two separate updates |
| `BindingCache.dfy` | a map of bindings and its reverse index |
| `Zjson.dfy` | the type-directed codec |
| `TrimAttr.dfy` | removing attributes from nested dicts in place |

How the models are built:

- Objects that the source updates in place are classes. Their methods are proved against functions of
  the old state: the mount graph against reachability computed from scratch (`Valid`), the sync object
  against `ReadAll` and `Recover`, the reconciler against `Reconciled`, dicts against `After` and `Trim`.
- Protocols are state machines whose steps interleave freely. `Run` follows any sequence of steps, and
  the main results are about every run from every initial state.
- The order in which Go or Python iterates over a map is left open; each loop picks any remaining key.
- What the environment does (other writers, failing requests, delivered events, query answers, jq
  conditions, which watches can be set up) is a parameter of a step or a method.

What the proofs found that the code or its comments do not say:

- The root comparison reads an answer of `""` as "no shared root". It is right about every edge that may
  be added at a node if and only if `""` is not among the cached roots of that node
  (`TestIsRightIffNamed`). Otherwise it lets in an edge that closes a cycle (`EmptyNameDefeatsTheTest`),
  around which the source then recurses for ever, or one that makes a second path; then the cached root
  sets are still right, but removing the edge again does not restore them (`RemovalUndoesIff`). The
  webhook's parents are never so named, so it is not affected.
- A refused batch of mounts is not rolled back: the mounts before the offending one stay
  (`AddMountNodeAndEdges`).
- A sync object whose load did not commit must be replaced. Calling `once` on it again loses exactly
  what its memory was ahead by (`ResumeAfterLoadIff`, `ResumedAgentLosesGap`, and a run in
  `ResumedRunLosesRecord`).
- A pending handler that is still enabled is forgotten exactly when a handler ahead of it raises and the
  patch lands all the same (`ForgottenIff`, and a run in `RaisingForgets`).
- A push to a child overwrites only what the mounter has seen, whatever comes, if and only if it rests on
  a generation (`SafeIffGuarded`); the first sync to a mounted child does not
  (`FirstMountOverwritesUnseen`). Everything below the overwritten generation was seen, too, if and only
  if no event of the child passed over a generation that was never seen (`AllSeenIffNoSkips`, for events
  that do not go back; a run with a gap in `GapLeavesUnseen`).
- A yielded mount is left active nowhere in every case but two: the source's update is refused or finds
  the source changed, or both updates are done and the first is acknowledged (`HandoverIff`). A conflict on the target is among the
  bad cases (`ConflictOrphans`), and no later enforcement repairs them (`OrphanStaysOrphan`).
- A binding that changes an endpoint without a removal leaves a stale entry in the index, and a failed
  watch leaves a binding cached but not indexed (`AddKeepsIndexIff`, `FailedWatchKeepsIndexIff`).
- The codec loses or refuses more than empty records: a null in front of a number fixes the element type
  to null, and a value that does not fit its list's first element is changed or raises (`Examples`).

## Model

| member | source | states |
|---|---|---|
| Graphs.MultitreeMeaning | space/mount/webhook/graph/multitree.go:27-30 | "At most one walk between any two nodes" is the same as: no cycle, and at most one simple path |
| Graphs.SiblingsDisjoint | space/mount/webhook/graph/multitree.go:139-141 | Below two children of one node of a multitree lies nothing in common |
| Graphs.DescShrinks | space/mount/webhook/graph/multitree.go:130-155 | Going to a child leaves strictly fewer nodes below, so the deep recursions end |
| Graphs.RootAbove | space/mount/webhook/graph/multitree.go:206-213 | In a finite acyclic graph every node has a root above it |
| Graphs.ReachesWithEdge | space/mount/webhook/graph/multitree.go:115-118 | What a new edge makes reachable, both ways |
| Graphs.RootTestIsExact | space/mount/webhook/graph/multitree.go:110-113 | Adding an absent edge keeps a multitree if and only if no node at or below its end shares a root with its start; self-loops included |
| Graphs.RootsWithEdge | space/mount/webhook/graph/multitree.go:120-125 | The roots above every node after an accepted edge |
| MultiTrees.TestIsRightIffNamed | space/mount/webhook/graph/multitree.go:144-164 | The coded test decides the multitree property for every edge that may be added at a node if and only if the empty name is not among that node's cached roots |
| MultiTrees.ReturnIsCycle | space/mount/webhook/graph/multitree.go:130-142 | An edge back to where one came from closes a cycle, around which the deep update would not end |
| MultiTrees.EmptyNameDefeatsTheTest | space/mount/webhook/graph/multitree.go:157-164 | The failing case exists: a self-loop on a node of the empty name passes and makes a cycle |
| MultiTrees.WithNodeIndex | space/mount/webhook/graph/multitree.go:172-182 | Root sets and trees of the graph with a new node |
| MultiTrees.WithEdgeIndex | space/mount/webhook/graph/multitree.go:115-127 | Root sets and trees of the graph with an added edge that closes no cycle, from those without it, whether the result is a multitree or not |
| MultiTrees.WithoutEdgeIndex | space/mount/webhook/graph/multitree.go:200-217 | Root sets and trees after removing an edge; the child becomes a root exactly when no root of its own is left |
| MultiTrees.RemovalUndoesIff | space/mount/webhook/graph/multitree.go:200-217 | Removing an edge that was just added restores all root sets if and only if no shared root was overlooked when it was added |
| MultiTrees.WithoutSinkIndex | space/mount/webhook/graph/multitree.go:232-238 | Deleting a node without children changes no other node's roots |
| MultiTrees.Intersect | space/mount/webhook/graph/multitree.go:157-164 | A named result is common to both sets; the empty result means that nothing is common or that the empty name is |
| MultiTrees.Slice | space/mount/webhook/graph/multitree.go:32-41 | All keys, each once |
| MultiTrees.DeepUpdateRoots | space/mount/webhook/graph/multitree.go:130-142 | In any acyclic graph it ends and rewrites precisely the roots of the nodes at or below the start; in a multitree it is called exactly once for each of them |
| MultiTrees.DeepCompareRoots | space/mount/webhook/graph/multitree.go:144-155 | Terminates, visits no node twice; without an error it visited every node at or below the start and met nothing to report, and an error names a node and a root that are really shared |
| MultiTrees.MultiTree.constructor | space/mount/webhook/graph/multitree.go:50-55 | The empty graph, with its empty index |
| MultiTrees.MultiTree.NodeExists | space/mount/webhook/graph/multitree.go:74-77 | Whether the name is a node of the graph |
| MultiTrees.MultiTree.EdgeExists | space/mount/webhook/graph/multitree.go:79-91 | Whether the edge is in the graph |
| MultiTrees.MultiTree.AddNode | space/mount/webhook/graph/multitree.go:166-183 | Adds the node; multitree, root sets and trees stay exact |
| MultiTrees.MultiTree.TestEdge | space/mount/webhook/graph/multitree.go:110-113 | In any state: a refused edge breaks the multitree; a passed edge keeps it unless a shared root of the empty name is overlooked |
| MultiTrees.MultiTree.AddEdge | space/mount/webhook/graph/multitree.go:93-128 | Succeeds between existing nodes if and only if the graph with the edge is a multitree, unless a shared root of the empty name is overlooked; a refusal is always right and changes nothing; each error has its exact condition; what is cached equals its definition in every case; the nodes below are updated once each |
| MultiTrees.MultiTree.RemoveEdge | space/mount/webhook/graph/multitree.go:185-218 | In every acyclic state: removes exactly the edge, with its exact effect on all root sets; keeps a valid state valid; each error has its exact condition and changes nothing |
| MultiTrees.MultiTree.RemoveNode | space/mount/webhook/graph/multitree.go:220-241 | Removes the node and all its edges, keeps the index exact |
| Webhook.Replay | space/mount/webhook/graph/multitree.go:93-241 | Over every sequence of operations from the empty graph in which no mount may overlook a shared root of the empty name, the cached structure follows the graph that cache-free rules give, and its root sets and trees equal their definitions |
| Webhook.NamedRunsAreClear | space/mount/webhook/graph/multitree.go:157-164 | That covers every sequence that adds no node of the empty name |
| Webhook.BlankLeavesAreClear | space/mount/webhook/cmd/main.go:159-171 | And every mount by a named node while no node of the empty name mounts anything, as in the webhook |
| Webhook.MountAndUnmount | space/mount/webhook/graph/multitree.go:93-128 | Removing a freshly added edge restores the graph; it restores every root set if and only if no shared root was overlooked, and then the trees |
| Webhook.MountsAreUnion | space/mount/webhook/cmd/main.go:191-204 | Adding mounts one by one gives the union of graph and batch |
| Webhook.BatchOrderIsIrrelevant | space/mount/webhook/cmd/main.go:173-189 | Batches of the same edges in any order give the same graph, hence the same verdict |
| Webhook.MountEdges | space/mount/webhook/cmd/main.go:173-189 | One edge for each mount, inactive exactly for those yielded |
| Webhook.Validator.AddMountNodeAndEdges | space/mount/webhook/cmd/main.go:191-204 | Accepts a batch if and only if the union is a multitree; acceptance installs the union; a refusal keeps the mounts before the first offending one, which is identified |
| Webhook.Validator.DoCreate | space/mount/webhook/cmd/main.go:229-255 | A new object is valid if and only if graph and its mounts together form a multitree; then the graph is their union. A refusal leaves some of the mounts, which still make a multitree, and the node of one that with them does not, and nothing else. What was in the graph stays |
| Webhook.CreateAll | space/mount/webhook/cmd/main.go:191-255 | Over every sequence of creations the mounts of all admitted objects are in the graph and together form a multitree, so a cycle is never admitted one object at a time; all objects are admitted if and only if all their mounts together form a multitree, in whatever order they come |
| Webhook.ObjIdsDiffer | space/mount/webhook/cmd/main.go:159-171 | Objects of different namespace or name are different nodes |
| PoolSync.Sync.constructor | driver/digi/data/sync.py:21-56 | A new agent starts from the watermarks recovered from the destination's log |
| PoolSync.Sync.FetchSourceTs | driver/digi/data/sync.py:154-174 | The recovered watermark of a source bounds every watermark that the log has for it, and the log has it |
| PoolSync.RecoverIsMax | driver/digi/data/sync.py:167-173 | The same of the function that specifies recovery |
| PoolSync.Sync.MakeQuery | driver/digi/data/sync.py:130-146 | The query asks each source for what is above the larger of its watermark and the configured minimum; answers are answers to these bounds |
| PoolSync.Sync.Read | driver/digi/data/sync.py:79-97 | Consumes the whole answer, or in exactly-once mode what is before the first summary without timestamp, and then raises, with the earlier watermarks already moved. The records are those of the part consumed, in its order; a summarised source ends at the largest of its summaries and its earlier watermark, or without exactly-once at the configured minimum; all other watermarks stay |
| PoolSync.ReadMeaning | driver/digi/data/sync.py:79-97 | The same of the function that specifies reading |
| PoolSync.Sync.Once | driver/digi/data/sync.py:74-107 | The new log and watermarks in all cases: nothing to load, read raises, load commits, is refused, or loses its reply; a commit holds the records of the answer in their order |
| SyncRuns.OnceTakesSteps | driver/digi/data/sync.py:74-82 | The object asks, reads an answer to what it asked and loads: a read step and, if there is something to load, a load step of the state machine |
| SyncRuns.RestartTakesAStep | driver/digi/data/sync.py:48-52 | Constructing the object anew is the restart step |
| SyncRuns.SourceAfterRead | driver/digi/data/sync.py:87-96 | After reading, each watermark is the largest matching timestamp, or is as before if nothing matched |
| SyncRuns.OrderStep | driver/digi/data/sync.py:74-107 | Every step keeps order and recoverability |
| SyncRuns.InOrderAndRecovered | driver/digi/data/sync.py:87-174 | In every run, with any source timestamps: later commits took only records strictly above earlier ones of the same source, saved watermarks never fall, and the maximum over the log is what the last commit saved |
| ExactlyOnce.WindowAfterRead | driver/digi/data/sync.py:130-146 | What a snapshot query matched is exactly what lies between old and new watermark in the whole source |
| ExactlyOnce.GapAfterRead | driver/digi/data/sync.py:79-97 | A read moves the memory ahead of the log by exactly the records it returned |
| ExactlyOnce.CommitCatchesUp | driver/digi/data/sync.py:99-107 | A commit adds to the destination exactly what its saved watermarks move past |
| ExactlyOnce.HealthyStep | driver/digi/data/sync.py:74-107 | Every step but resuming an ended agent keeps the destination equal to the flows' image up to the saved watermarks |
| ExactlyOnce.ExactlyOnceAlways | driver/digi/data/sync.py:74-174 | In every such run the destination holds the flows' output for precisely the records between the minimum and the saved watermark, each once |
| ExactlyOnce.CatchUp | driver/digi/data/sync.py:48-107 | After a restart, a read that sees all commits and a committed load, if there is anything to load, the destination holds the flows' output for every source record above the minimum, each once |
| ExactlyOnce.ResumeAfterLoadIff | driver/digi/data/sync.py:99-107 | Calling `once` again on an agent that its load ended is safe if and only if the load was committed, that is, only the reply was lost |
| ExactlyOnce.ResumedAgentLosesGap | driver/digi/data/sync.py:74-77 | What lies between saved and remembered watermarks is lost, exactly, at the next commit; so exactly-once survives if and only if that is nothing |
| ExactlyOnce.ResumedRunLosesRecord | driver/digi/data/sync.py:74-77 | A run from the start: a refused load, a second call, and a record that is never loaded though the saved watermark is past it |
| MergePatches.ApplyTwice | driver/digi/util.py:226-243 | A merge patch applied twice is the patch applied once |
| MergePatches.SetsLeaves | driver/digi/util.py:226-243 | Wherever a path of the patch ends in a plain value, the patched document has that value |
| MergePatches.RemovesNulls | driver/digi/util.py:226-243 | Wherever it ends in null, the document has nothing |
| MergePatches.KeepsTheRest | driver/digi/util.py:226-243 | Every path that the patch does not touch leads to what it led to |
| ApiServers.HistoryOrder | driver/digi/util.py:208-223 | Resource versions name versions, generations never fall, and a generation fixes the spec |
| ApiServers.ApiServer.PatchSpec | driver/digi/util.py:226-243 | A patch that names a resource version lands on that version only; a conflict has written nothing, any other failure wrote at most once; every failure is a fault of the request, or a conflict with another version that is current; otherwise the patch lands |
| ApiServers.LandedOnSeen | driver/digi/util.py:250-259 | A patch under the resource version just read landed on exactly what was read |
| ApiServers.CheckGenAndPatchSpec | driver/digi/util.py:246-264 | Under any finite interference it ends; success means that the patch took effect in one step at the returned generation, at most the caller's, and that the new generation is that or one more, the latter by this very write; an outdated generation means that nothing was written; an error or a raise comes from a fault of the last patch or the last read, never from a conflict, which is retried; so without faults it succeeds or finds the generation outdated |
| LakePollers.DropMissing | lake/driver/handler.py:54-60 | Keeps exactly the pools that the current spec has |
| LakePollers.PatchExistingPools | lake/driver/handler.py:48-67 | Whenever the patch lands, under any concurrent creations and deletions, all pools it writes are in the spec at that instant and no pool comes back; no pool that stayed throughout is left out; the rest of what was to be written is sent as it is. It sends unless a read fails, and without faults it lands or is in conflict |
| Reconcilers.CompileMeaning | driver/digi/reconcile.py:169-183 | The compiled list holds exactly the enabled handlers, in ascending priority |
| Reconcilers.CompileIsStable | driver/digi/reconcile.py:181-182 | Handlers of one priority, each as often as it is there, keep the order in which they were added |
| Reconcilers.UpdateMeaning | driver/digi/reconcile.py:113-157 | After a change of reflexes each name in the spec has its handler with the policy and priority given there and the rest as before; other reflexes are gone, other built-in handlers stay |
| Reconcilers.UpdateOrder | driver/digi/reconcile.py:113-157 | Handlers that stay keep their order, new ones follow in the order of the spec |
| Reconcilers.PendingRun | driver/digi/reconcile.py:69-91 | Unless a handler raises, every pending handler in the list runs |
| Reconcilers.RanIsPending | driver/digi/reconcile.py:74-85 | Unless a handler raises, whatever ran is pending afterwards |
| Reconcilers.NothingHiddenEver | driver/digi/main.py:55-95 | In every serial run the skip marker never covers a generation at which something is pending |
| Reconcilers.SelfWriteFindsNothingPending | driver/digi/main.py:72-76 | An event dropped as a self-write finds the pending set empty |
| Reconcilers.PendingUntilLanded | driver/digi/main.py:81-95 | A pending handler stays pending until a patch lands |
| Reconcilers.RejectedEditIsRetried | driver/digi/main.py:55-95 | A handler whose edit did not land runs again at the next newer generation if it is still enabled and no handler raises |
| Reconcilers.PendingRunsIff | driver/digi/reconcile.py:69-91 | A pending handler runs if and only if none ahead of it raises |
| Reconcilers.RunsIff | driver/digi/reconcile.py:69-91 | An enabled handler runs if and only if none ahead of it raised and its condition is met, it was pending, or the same function ran ahead of it |
| Reconcilers.RunComposes | driver/digi/reconcile.py:69-91 | The spec that comes out is the delivered one with the edits of all handlers that ran, one after the other, those of one that raised included; only the last may have raised, and all others are pending |
| Reconcilers.OwnWriteComesBack | driver/digi/main.py:70-95 | A landed write that made the next generation is dropped when it is delivered, unless the drop was forbidden; then it is handled, and dropping is allowed again |
| Reconcilers.ForgottenIff | driver/digi/main.py:78-95 | In every run: a pending handler that is still enabled is forgotten at an event if and only if a handler ahead of it raises and the patch lands |
| Reconcilers.RaisingForgets | driver/digi/reconcile.py:86-91 | A run from the start in which that happens |
| Reconcilers.NamesStayDistinct | driver/digi/reconcile.py:99-111 | In every run no two handlers share a name |
| Reconcilers.Reconciler.AddHandler | driver/digi/reconcile.py:93-111 | A taken name is made unique; otherwise the handler is added under its own |
| Reconcilers.Reconciler.UpdateHandlerInfo | driver/digi/reconcile.py:113-157 | Which handlers are known after a change of reflexes, in which order |
| Reconcilers.Reconciler.CompileHandler | driver/digi/reconcile.py:169-183 | The list is recompiled only if something changed, and then equals the compilation of the known handlers |
| Reconcilers.Reconciler.Run | driver/digi/reconcile.py:61-91 | Spec, pending set and handlers run, as a fold over the handler list in force; the spec composes the edits of those that ran |
| Reconcilers.Reconciler.RunHandlers | driver/digi/reconcile.py:69-91 | The loop equals the fold over the compiled handlers, up to the first that raises; its spec composes the edits of all that ran |
| Reconcilers.Reconciler.ShouldSkip | driver/digi/reconcile.py:209-212 | Answers the flag and sets it again |
| Reconcilers.Reconciler.Reconcile | driver/digi/main.py:48-96 | One event against the real patch guard: the new state; which events are dropped, exactly; an event dropped as a self-write carries a generation and a spec that this controller itself wrote; what is sent is the delivered spec with the edits of the handlers that ran; a patch lands only at the delivered generation, and without faults it lands or that is outdated |
| Reconcilers.PatchedAtDelivered | driver/digi/main.py:79-93 | A landed patch found the delivered generation in place, so a generation one higher is its own |
| Reconcilers.SameGenerationSameSpec | driver/digi/main.py:72-76 | An event at an own generation brings the spec that was written |
| Mounters.StepKeepsInv | driver/digi/mount.py:90-432 | Every request of every handler, every event, every foreign write and every restart keeps: generations in copies, tables and tasks were seen, skip markers are own generations |
| Mounters.OnlySeenIsOverwritten | driver/digi/mount.py:348-411 | In every run, a guarded push to a child overwrites only a generation that the mounter has seen, the newest it has seen |
| Mounters.AllSeenIffNoSkips | driver/digi/mount.py:348-411 | In every run whose events of a child do not go back and which patches it only on the ground of a generation, a guarded push finds every generation of the child, up to the overwritten one, delivered to the mounter or written by it, if and only if no event passed over a generation never seen |
| Mounters.AllBelowOverwrittenSeen | driver/digi/mount.py:348-411 | The "if" half needs no order of events |
| Mounters.SkippedIsMissing | driver/digi/mount.py:90-111 | A generation that an event passed over stays unseen |
| Mounters.GapLeavesUnseen | driver/digi/mount.py:132-160 | A run in which a mounted child's first delivered version is its second generation, and the push that follows overwrites it with the first one unseen |
| Mounters.SafeIffGuarded | driver/digi/mount.py:361-411 | In every reachable state, a push under way overwrites only what was seen in every continuation if and only if it rests on a generation |
| Mounters.FirstMountOverwritesUnseen | driver/digi/mount.py:386-396 | A run in which the first sync to a mounted child overwrites a version never seen |
| Mounters.DroppedChildEventIsOwn | driver/digi/mount.py:106-108 | In every run, a dropped child event carries a generation made by the mounter's own patch, with the spec it wrote |
| Mounters.DroppedParentEventIsOwn | driver/digi/mount.py:270-272 | The same for dropped parent events |
| MounterSteps.WithoutMeaning | driver/digi/util.py:111-125 | A trimmed spec has no path through the key, and all other paths lead where they led, trimmed |
| MounterSteps.CopyCommitted | driver/digi/mount.py:198-247 | On the parent that was read, the child's copy gets the delivered spec, merged, together with the delivered generation; mode, status, all other copies and the rest stay; it is an own version, whose generation is marked, exactly if something changed. On a parent that moved it changes nothing and is tried again |
| MounterSteps.PushesMeaning | driver/digi/mount.py:348-396 | A parent event pushes to exactly the touched children that are active and have a spec in their copy, that spec, a hidden child's without its mounts |
| MounterSteps.PushCommitted | driver/digi/mount.py:400-411 | On the child that was read, the patch is applied; the generation is remembered, and marked if it is new; other children and the parent stay. On a child that moved it changes nothing and is tried again |
| MounterSteps.CopyArrives | driver/digi/mount.py:100-247 | A delivered version that nobody disturbs is in the parent's copy, with its generation |
| MounterSteps.PushArrives | driver/digi/mount.py:262-411 | A delivered change of an active child's copy, disturbed by nobody, is patched into the child, unless the child is newer than both the copy's generation and the last known one; then it is dropped |
| MounterSteps.PushOnCreation | driver/digi/mount.py:90-170 | On creation, undisturbed: nothing if the parent does not mount the child, dropped if the child is newer than the event, else patched into the child |
| MounterSteps.OwnVersionsAreRenewals | driver/digi/mount.py:172-247 | In every run each version of the parent that the mounter wrote is the one before it with exactly one copy changed: the spec of some version of that child merged into it, beside that version's generation |
| CrdPatchers.FindDependencies | model/patch.py:54-86 | Each CRD waits for exactly the CRDs that it mounts |
| CrdPatchers.FirstReady | model/patch.py:94-98 | The first CRD that waits for nothing, if there is one |
| CrdPatchers.Release | model/patch.py:102-106 | Every CRD that waited gets the spec and waits no longer; nothing else changes |
| CrdPatchers.FilledIsExpanded | model/patch.py:18-35 | If every mount holds the spec of its CRD, every spec is the recursive expansion |
| CrdPatchers.ExpandIgnoresSlots | model/patch.py:35 | The expansion does not depend on what the mounts held before |
| CrdPatchers.PatchedIsStable | model/patch.py:92-106 | Patching again changes nothing |
| CrdPatchers.OrderedIsPatchable | model/patch.py:92-106 | An order with dependencies first exists only without cycles and missing CRDs |
| CrdPatchers.StuckIsNotPatchable | model/patch.py:100 | If no CRD is ready, there is a cycle or a missing CRD |
| CrdPatchers.Patch | model/patch.py:92-106 | The loop ends without a failed assertion if and only if no CRD is missing and there is no cycle; then every spec is its recursive expansion and each CRD came after all that it mounts |
| YieldPolicies.Transfer | space/policy/pkg/controller/yieldpolicy/yieldpolicy_controller.go:305-322 | Exactly the mounts common to both and active in the source are flipped, in both; everything else stays; whether there was any |
| YieldPolicies.SecondPassIsIdle | space/policy/pkg/controller/yieldpolicy/yieldpolicy_controller.go:305-322 | A second pass over the result finds nothing and changes nothing |
| YieldRuns.StepSafe | space/policy/pkg/controller/yieldpolicy/yieldpolicy_controller.go:292-345 | Every read, every update that is done, refused, in conflict or done without a reply, and every foreign write keeps the enforcement safe |
| YieldRuns.OneActiveParentAlways | space/policy/pkg/controller/yieldpolicy/yieldpolicy_controller.go:305-345 | At most one active parent for each child, after every single write of every run |
| YieldRuns.SourceUpdateIff | space/policy/pkg/controller/yieldpolicy/yieldpolicy_controller.go:338-342 | After the source's update nothing has changed if it was refused or in conflict, and the child is active nowhere if it was done |
| YieldRuns.HandoverIff | space/policy/pkg/controller/yieldpolicy/yieldpolicy_controller.go:338-345 | As a whole, the child keeps its active parent if and only if the source's update is refused or in conflict, gets the new one if and only if both are done and the first is acknowledged, and otherwise is left without |
| YieldRuns.ConflictOrphans | space/policy/pkg/controller/yieldpolicy/yieldpolicy_controller.go:338-345 | A run from two digis in which a conflict on the target leaves the child without an active parent |
| YieldRuns.OrphanStaysOrphan | space/policy/pkg/controller/yieldpolicy/yieldpolicy_controller.go:305-345 | No later enforcement makes them active again |
| BindingCaches.AddKeepsIndexIff | space/sync/pkg/controller/sync/sync_controller.go:120-133 | A completed addition keeps the index exact if and only if the name is new or keeps its endpoints |
| BindingCaches.FailedWatchKeepsIndexIff | space/sync/pkg/controller/sync/sync_controller.go:75-118 | An addition stopped at a watch keeps it exact if and only if that very binding was cached before |
| BindingCaches.RemoveKeepsIndex | space/sync/pkg/controller/sync/sync_controller.go:145-159 | A removal keeps the index exact, also for equal source and target |
| BindingCaches.BindingCache.Add | space/sync/pkg/controller/sync/sync_controller.go:65-134 | The three outcomes, when each happens, bindings, index and watched kinds after it, and whether the index is then exact |
| BindingCaches.BindingCache.Remove | space/sync/pkg/controller/sync/sync_controller.go:136-160 | Removes the binding from the cache and from the index; an unknown name changes nothing |
| BindingCaches.Replay | space/sync/pkg/controller/sync/sync_controller.go:65-160 | Over every run with valid modes, working watches and endpoints changed only after removal, each model's entry holds exactly the cached bindings that touch it |
| BindingCaches.FirstMoveBreaksTheIndex | space/sync/pkg/controller/sync/sync_controller.go:120-133 | The first addition that moves an endpoint without removal makes the index wrong |
| Zjson.IntRoundTrip | driver/digi/data/zjson.py:155-157 | An integer's decimal form, under all the ASCII spellings that are accepted when reading, reads back as that integer |
| Zjson.AsIsIff | driver/digi/data/zjson.py:170-171 | A wire value taken as it is equals the original if and only if that is null, a string or a list of such |
| Zjson.DecodesIff | driver/digi/data/zjson.py:149-187 | Under the type inferred from one value, another value's wire form reads back as that value if and only if it fits |
| Zjson.TypeDecodesIff | driver/digi/data/zjson.py:120-146 | Reading the inferred type succeeds if and only if no empty dict took part, and then gives it back |
| Zjson.StreamRoundTrip | driver/digi/data/zjson.py:28-117 | A stream reads back as written if and only if each object conforms to its own inferred type |
| Zjson.Examples | driver/digi/data/zjson.py:46-98 | Objects that are lost or refused, and nulls and short records that survive |
| Zjson.IdsCount | driver/digi/data/zjson.py:46-76 | Within one type, identifiers are consecutive, parts before the whole |
| Zjson.StreamIdsCount | driver/digi/data/zjson.py:37-43 | In one stream all type identifiers differ and grow |
| Zjson.EncodeType | driver/digi/data/zjson.py:46-76 | The counting encoder computes the pure type and counter |
| Zjson.Encode | driver/digi/data/zjson.py:37-43 | The generator's messages, one for each object, under one counter |
| Zjson.DecodeRaw | driver/digi/data/zjson.py:110-117 | The reader's objects, up to the first message that raises |
| Zjson.ReferenceIsType | driver/digi/data/zjson.py:120-146 | After a stream, a message that names the type of any earlier list or dict by identifier is read as under the full type, so its value comes back if and only if it fits that object |
| Zjson.OnTheWire | driver/digi/data/zjson.py:203-210 | The example that comes with the codec, message for message, with identifiers from 30 |
| TrimAttrs.TrimKeepsOtherPaths | driver/digi/util.py:111-125 | Paths through a removed key are gone, every other path leads to what it led to, trimmed |
| TrimAttrs.TrimTwice | driver/digi/util.py:111-125 | Trimming A and then B is trimming their union; trimming again changes nothing |
| TrimAttrs.KeptTwice | driver/digi/util.py:123-124 | Popping two groups of keys one after the other is popping their union |
| TrimAttrs.AfterIsTrim | driver/digi/util.py:111-125 | Dropping the attributes from every dict reached through kept keys, and from no other, is the recursive removal |
| TrimAttrs.PrunedReached | driver/digi/util.py:118-122 | What is reached through kept keys does not depend on the removed ones |
| TrimAttrs.TrimOne | driver/digi/util.py:114-124 | One turn of the outer loop: the dict keeps its other items in order, and their values are queued |
| TrimAttrs.TrimAttr | driver/digi/util.py:111-125 | The loop over the list that it extends ends unless a dict contains itself through kept keys; exactly the dicts reached through kept keys changed, also when dicts are shared; the result is the recursive removal |

## Left out

- MultiTrees.MultiTree.AddEdge: excludes only the states in which it may accept an edge that closes a cycle, because a shared root of the empty name is overlooked; there the source may recurse for ever (`ReturnIsCycle`). `TestEdge` says what the comparison answers in them.
- Webhook.Replay: a mount that may overlook a shared root of the empty name is excluded; `AddEdge` says what one does.
- Webhook.MountAndUnmount: excludes what `AddEdge` excludes.
- Webhook.Validator.AddMountNodeAndEdges: the status of an edge is not part of the graph, as in the source, which drops it.
- `doUpdate` of the webhook (a stub), reading objects from admission reviews, printing of trees, and the lock.
- PoolSync.Sync.Read: an output record that itself carries the field `__from`, and watermark formats, are not modelled; timestamps are exact integers.
- ExactlyOnce.CatchUp: a source without new records may answer with a summary without a timestamp, on which the source's read raises; then nothing is loaded, and the agent ends.
- ExactlyOnce.ExactlyOnceAlways: assumes exactly-once mode, snapshot queries, atomic commits of data and meta, one agent for each destination, per-record flows, a fixed minimum, and commits of a source above all earlier ones. A source configured twice is read twice.
- Query text, the in-flow and out-flow languages, the event stream, polling, threads and the `Watch` subclass of the sync; a step is one query or one load.
- ApiServers.ApiServer.PatchSpec: a patch that changes nothing makes no new version; creation and deletion of the model are not modelled, so generations never restart.
- ApiServers.CheckGenAndPatchSpec: a failing read of the spec, which makes the source raise while unpacking, is the outcome `Raised`. Interference is finite; without that the loop need not end.
- LakePollers.PatchExistingPools: how the counts are collected from the lake; a conflict drops the whole refresh, as in the source.
- Reconcilers.RejectedEditIsRetried: a handler's effect and whether it raises depend only on the function and the spec it is given. Reuse of a Python object identity by a later function is not modelled. What happens when a handler raises is said by `ForgottenIff`.
- Reconcilers.Reconciler.Reconcile: loading a snapshot of the model to its pool, logging and attribute paths of handlers.
- Mounters: the class is modelled as a state machine over values, one step for each request, because its handlers run concurrently; what is lost is the sharing of dicts between handlers, such as the trim set that one handler extends. What is copied to the parent is the spec of the delivered version, to which the diff of the event is taken to lead; the push on creation may carry any JSON. Attributes are trimmed as in the default mode, which trims mounts of hidden children only. On creation the push to the child and the copy to the parent are two tasks in any order, which includes the source's order. What was seen counts across restarts of the process.
- Mounters.OnlySeenIsOverwritten: other writers may set generations in copies only to values that the mounter has seen, and objects are not recreated. Pushes from copies without a generation are not covered; `SafeIffGuarded` says why.
- Mounters.AllSeenIffNoSkips: for runs in which the child is patched only on the ground of a generation, as the others overwrite what was not seen anyway (`SafeIffGuarded`). The API server may skip generations, and then it fails (`GapLeavesUnseen`).
- Mounters.SafeIffGuarded: generations stay below the largest machine integer, which the source takes for "no bound".
- The mounter's delete path, `_prune_mounts`, the watch table, and any claim that parent and child converge: a late event for an earlier own write can bring an old value back.
- CrdPatchers.Patch: CRDs with one version each; finding, reading and writing the files. A mounted schema is a value, while the source shares the dict; each is complete when it is shared.
- YieldRuns.OneActiveParentAlways: other writers may do anything but activate a mount.
- Yield conditions are an arbitrary boolean. That the controller's type drops the copy and the generation of each mount entry is modelled (`GetMounts`), its consequences for the mounter are not.
- The policy cache, whose shape is that of the binding cache, and enforcement of bindings.
- BindingCaches.BindingCache.Add: bindings are values; the source stores pointers that nobody changes.
- Zjson.StreamRoundTrip: ints, bools, strings, null, lists and dicts. Sets, maps, unions, enums, named types and leaf formats of libraries (durations, times, addresses, decimals, bytes, floats) are left out. Equality is strict: it tells `True` from `1` and sees the order of keys; keys of a dict are assumed to differ. JSON text is assumed to round-trip.
- Zjson.DecodeRaw: works on values; that `_decode_type` writes resolved types back into the message is not visible there. Messages that report query errors are left out.
- Zjson.IntRoundTrip: spaces, one sign, leading zeros and single underscores are read as Python reads them; digits and spaces outside ASCII are not modelled.
- TrimAttrs.TrimAttr: dicts that contain themselves through kept keys are excluded; there the source would not end.
- `apply_diff`, `deep_set`, the view helpers, alias and resource-name parsing, the command line tools, sidecars, templates and build files.
