# Kloudlite internal operator: a verified model

Dafny 4.11. `dafny verify dfyconfig.toml` checks everything.

The operator runs controllers over a Kubernetes cluster. The project models five parts of it and proves
properties that span several functions, several controllers, or whole runs.

**Node-pool autoscaler** (`Rcalculate`, `NodePool`, `PoolSafety`, `PoolCapacity`, `PoolConvergence`,
`PoolHysteresis`, `PoolMeaning`, `PoolEffects`). `Input` keeps its memo fields, `WorkerStore` the list of WorkerNodes of one
edge. A run is any sequence of reconciles by any pools of that edge under any load. Reachable lists have indices exactly 0..n-1
with the stateful workers a prefix, so a stateful worker is never deleted. Under a fixed load, while no worker
added or removed is larger than the one listed first, a run never both adds and deletes, and settles within
2·max(0, Max−n) + (n−k) actions; equal nodes are a case of this. Otherwise it can thrash: if the bounds allow
both, some load makes a deletion be followed at once by an addition if and only if 16·(M−d) < 15·(M−s), where M
is the edge's memory, d that of the worker deleted and s that of the worker listed first, which
`getFilledByAssumingLess` subtracts in its place.

**Deletion protocol** (`Cluster`, `ClusterEffects`, `TeardownSafety`, `TeardownProgress`). CloudProvider, Edge, NodePool and
WorkerNode objects with labels, finalizers and deletion marks, provider secrets, Nodes, machines, create and
delete jobs. Steps of users, the garbage collector, jobs and the four controllers interleave arbitrarily. The promise
that credentials outlive the workers that need them is **not** met by all inputs: NodePool names are
`<edge>-<pool>`, so edge `a` with pool `b-c` and edge `a-b` with pool `c` write the same NodePool, and a run
then deletes the secret of a living worker. It is met exactly when no two declared edges share a NodePool name.

`finalize` of a WorkerNode takes any error of `terraform.GetOutputs` to mean that there is no machine. So the
promise that a worker is let go only when nothing of it is left is **not** met either. A step breaks it exactly
when it reconciles a deleting worker without Node whose machine's outputs cannot be read, or whose machine is
still being made; runs to both are given.

Once everything is marked for deletion, any order of finalizers takes a bounded number of effective ones, and
some order finishes exactly when every machine still to be destroyed, whose outputs can be read, has its
provider's secret. That **every** order finishes is the promise that teardown cannot deadlock, and it is met
exactly when no two declared edges share a NodePool name: otherwise edges and provider can go first, the secret
with them, and leave a worker whose machine can no longer be destroyed.

**Reconcile request** (`RawJsons`, `RawMessages`, `Requests`, `RoundEffects`, `Readiness`). `RawJson` is a map cached beside its
bytes, on the heap. It behaves as a plain map under any sequence of its operations, and under these a
`DeepCopyInto` copy is independent exactly when it was taken while there were bytes, or no decoded map. Decoding
into the original is another matter, since it may write into the shared array; when a copy shows that is stated
exactly. `Request` is the pipeline of the Account, Device, Edge, NodePool and WorkerNode controllers: a round may
stop or go on after recording a check, record a failure under another name, or stop without touching any. Over
all runs, with refused API writes and edits by others, `IsReady` means every gating check is true, and `Message`
tells exactly the reported failures. From any stored status the number of rounds to Ready is computed exactly.

**Proxy configuration and addresses** (`Text`, `Addressing`, `Wireguard`, `ProxyConfig`, `ProxyStability`,
`ProxyEntries`, `Deployments`). The wireguard server's peers are those of the complete device secrets, in an order that does
not depend on the API, and no two claim one address; offset 3327 alone is given the server's own.
Over any run of `reconDevProxyConfig` an id that stays declared keeps its proxy port exactly when its first and
last entries agree on it, as they always do while no device lists a port twice. Reconciling again writes nothing,
for all draws, exactly when the declared ids are distinct, and a third time writes nothing in any case. The
device controller finds every declared port, and finds its own entry exactly when no id is declared in two ways;
`checkPortsDiffer` stays true exactly for devices without ports.
`updateDeployments` fails exactly when it would delete one region's deployment twice.

**Conditions** (`Conditions`). `Patch` is a merge whose flag is exact; it is idempotent exactly when the source
does not say different things of a type that the destination lacks. Recording failures is bounded. `Equal` is always transitive. It is reflexive exactly on lists that do not contradict themselves, and
symmetric, for a given first argument, exactly when that repeats no type or contradicts itself. Nothing in the
repository calls it, so these are facts about its interface.

Conventions. A method that updates state in the source is a method here, proved against a specification
function of the old state; the theorems are about those functions. Functions named `...Spec`, `Step`, `Next`,
`Round` and `Stored` are these specifications. What each operation does is also said without them, object by
object and field by field: in `ClusterEffects`, `PoolEffects`, `PoolMeaning`, `RoundEffects`, `ProxyEntries` and
the lemmas ending in `Exactly`.

## Model

| member | source | states |
|---|---|---|
| Arithmetic.QuotientReaches | lib/rcalculate/main.go:156-183 | a truncated percentage reaches a mark exactly when the undivided amounts do |
| Rcalculate.Input.GetStatefulCount | lib/rcalculate/main.go:71-83 | counts the stateful nodes, from the memo or afresh, and leaves the memo right |
| Rcalculate.Input.GetStatefulAllocatable | lib/rcalculate/main.go:85-105 | memory and cpu of the stateful nodes, memoised |
| Rcalculate.Input.GetAllocatable | lib/rcalculate/main.go:107-118 | memory and cpu of all nodes |
| Rcalculate.Input.GetStatefulFilled | lib/rcalculate/main.go:120-139 | stateful fill with sentinels 0 and 200 |
| Rcalculate.Input.GetTotalFilled | lib/rcalculate/main.go:141-159 | total fill with sentinels 0 and 200 |
| Rcalculate.Input.GetFilledByAssumingLess | lib/rcalculate/main.go:165-186 | fill without the first listed node |
| Rcalculate.Input.Calculate | lib/rcalculate/main.go:191-279 | refines the three ordered guards add, tag, delete |
| PoolMeaning.SizeFromCatalogue | controllers/infra/nodepool_controller.go:219-245 | an aws worker of a listed type has 1000 times the entry's memory and cpu, any other worker none |
| PoolMeaning.MemoryInUnits | lib/rcalculate/main.go:107-118 | the memory of a list is 1000 times the sum of its catalogue entries |
| PoolMeaning.SumsByNode | lib/rcalculate/main.go:71-118 | memory, cpu and stateful count grow with each node by what it brings |
| PoolMeaning.DecideAnyThreshold | lib/rcalculate/main.go:191-279 | the decision at any threshold and buffer, in percentages |
| PoolMeaning.DecisionExactly | lib/rcalculate/main.go:219-264 | each of the four decisions if and only if plain inequalities (4/5 and 3/4) between load and catalogue memory hold, for every list and load |
| PoolMeaning.EqualNodesAdd | lib/rcalculate/main.go:219-229 | n aws workers of m units, within the bounds, are given ADD_NODE if and only if 5 * load >= 4000 * m * n and there is load |
| NodePool.FreshIndex | controllers/infra/nodepool_controller.go:317-332 | the nested search refines the scan whose result is characterised below |
| PoolSafety.FreshIndexIsLeastUnused | controllers/infra/nodepool_controller.go:317-332 | by pigeonhole: the index is the least one unused and at most n, for lists with gaps, repetitions or negative indices |
| NodePool.FindLast | controllers/infra/nodepool_controller.go:347-352 | the search for the highest index |
| PoolSafety.LastIndexIsMax | controllers/infra/nodepool_controller.go:347-352 | no index is above it, and it is in use unless it is the initial 0 |
| NodePool.WorkerStore.ReconWorkerNodes | controllers/infra/nodepool_controller.go:190-394 | the list after a reconcile, and the decision taken |
| PoolEffects.AddOnAnyList | controllers/infra/nodepool_controller.go:297-339 | on any list ADD_NODE adds one untagged worker of the pool's kind with the least unused index, or nothing when its name is taken |
| PoolEffects.DeleteOnAnyList | controllers/infra/nodepool_controller.go:341-371 | on any list of different names DEL_NODE removes exactly the first worker of the highest index, or nothing when all are negative |
| PoolEffects.TagOnAnyList | controllers/infra/nodepool_controller.go:372-387 | on any such list ADD_STATEFUL tags exactly the first worker whose index is the stateful count, or nothing when there is none |
| PoolEffects.NeutralOnAnyList | lib/rcalculate/main.go:278 | NEUTRAL leaves the list as it is |
| PoolSafety.AddEffect | controllers/infra/nodepool_controller.go:297-339 | from a reachable list ADD_NODE adds one untagged worker with index n and touches no other |
| PoolSafety.DeleteEffect | controllers/infra/nodepool_controller.go:341-371 | DEL_NODE removes exactly the worker with index n-1, and it is not stateful |
| PoolSafety.TagEffect | controllers/infra/nodepool_controller.go:372-387 | ADD_STATEFUL finds exactly one worker, untagged, and tags it |
| PoolSafety.ReachableInv | controllers/infra/nodepool_controller.go:297-387 | names and indices distinct, indices in range, stateful exactly below the stateful count, in every state of every run |
| PoolSafety.ReachableIndices | controllers/infra/nodepool_controller.go:317-386 | from an empty edge the indices in use are exactly 0..n-1 |
| PoolSafety.StatefulNeverDeleted | controllers/infra/nodepool_controller.go:341-371 | a worker once stateful is in every later list of every run |
| PoolSafety.IndicesStayDistinct | controllers/infra/nodepool_controller.go:317-332 | indices stay distinct when removals happen at arbitrary other times too |
| PoolSafety.SizeSafety | lib/rcalculate/main.go:219-261 | over any run the stateful count never falls and a non-empty edge is never emptied, even with Min = 0 |
| PoolSafety.DistanceNeverGrows | lib/rcalculate/main.go:220-261 | while one pool acts alone its node count never moves away from [Min, Max] |
| PoolCapacity.MarksMonotone | lib/rcalculate/main.go:141-186 | whether a capacity passes the add or the delete mark is monotone, through truncating division and both sentinels |
| PoolCapacity.SeenSensible | lib/rcalculate/main.go:218-264 | what a decision says about counts and capacities, and when it is certainly DEL_NODE |
| PoolConvergence.LessIsOneFewer | lib/rcalculate/main.go:141-186 | with equal nodes the deletion estimate on n+1 nodes is the fill of n nodes, sentinels included |
| PoolConvergence.EqualNodesCovered | lib/rcalculate/main.go:165-186 | with equal nodes no worker added or removed is ever larger than the first listed, so the next three rows hold of them |
| PoolConvergence.NeverAddsAndDeletes | lib/rcalculate/main.go:218-264 | a fixed-load run in which no worker added or removed is larger than the first listed contains no ADD_NODE together with a DEL_NODE, in either order and at any distance |
| PoolConvergence.ActionsBounded | lib/rcalculate/main.go:218-264 | such a run reaches NEUTRAL within 2*max(0, Max-n) + (n-k) actions |
| PoolConvergence.NeutralIsFinal | lib/rcalculate/main.go:278 | at a fixed load NEUTRAL is final: the list no longer changes |
| PoolHysteresis.GapExactly | lib/rcalculate/main.go:231-259 | some load lies between the two marks of two capacities if and only if 16*under < 15*over |
| PoolHysteresis.DeleteThenAddExactly | lib/rcalculate/main.go:165-264 | a DEL_NODE can be followed at the same load by an ADD_NODE if and only if the bounds allow both and 16*(M-d) < 15*(M-s) |
| PoolHysteresis.AddThenDeleteExactly | lib/rcalculate/main.go:165-264 | likewise for an ADD_NODE followed by a DEL_NODE |
| PoolHysteresis.NoThrashWhenFirstIsLargest | lib/rcalculate/main.go:178-183 | the immediate case from the exact conditions: neither happens at any load when the first listed worker is at least as large as the one removed or added |
| Cluster.Controllers.ReconcileCloudProvider | controllers/infra/cloudprovider_controller.go:71-137 | finalizers, or when deleting: wait for edges, delete the secret, let go |
| ClusterEffects.ProviderGoesExactly | controllers/infra/cloudprovider_controller.go:83-137 | a provider goes if and only if it is marked and no labelled edge names it; the secret goes with it and not otherwise; nothing else changes |
| Cluster.Controllers.ReconcileEdgeObject | controllers/infra/edge_controller.go:58-81 | label, then finalizers; when deleting, wait for NodePools, then let go |
| ClusterEffects.EdgeGoesExactly | controllers/infra/edge_controller.go:276-357 | an edge goes if and only if it is marked and no NodePool carries its label; else what its label and finalizers become; nothing else changes |
| Cluster.Controllers.ReconPool | controllers/infra/edge_controller.go:100-211 | no effect without the provider or when counts and settings match, else all pools applied |
| Cluster.Controllers.UpdatePool | controllers/infra/edge_controller.go:230-274 | applies one NodePool per declared pool, in order |
| ClusterEffects.PoolApplied | controllers/infra/edge_controller.go:230-274 | what one applied document makes of the NodePool it names, when it is applied, and that nothing else changes |
| ClusterEffects.PoolsApplied | controllers/infra/edge_controller.go:153-211 | when a pool reconcile does nothing, and otherwise what it makes of every declared NodePool; no other NodePool is touched |
| Cluster.UpdateTwice | controllers/infra/edge_controller.go:182-202 | applying again, as the matching loop does for each unmatched pool, changes nothing |
| Cluster.MovesAreRun | controllers/infra/edge_controller.go:153-274 | whatever is interleaved with whole pool reconciles of edges is a run of single applications and other steps |
| TeardownSafety.PoolsReconciled | controllers/infra/edge_controller.go:153-211 | afterwards every declared pool is the edge's own with its settings, if and only if no two pools of one name differ in settings; the next reconcile is a no-op in any case |
| Cluster.Controllers.ReconcileNodePool | controllers/infra/nodepool_controller.go:63-153 | finalizers; when deleting, wait for all workers of the edge, then let go |
| ClusterEffects.PoolGoesExactly | controllers/infra/nodepool_controller.go:105-153 | a NodePool goes if and only if it is marked and no worker of whatever pool is in its edge; nothing else changes |
| Cluster.Controllers.ReconcileWorkerNode | controllers/infra/workernode_controller.go:286-360 | the whole reconcile: finalizers, then a create job while no outputs can be read (deleted again at lines 332-347, so that it may get lost); when deleting (lines 496-524), detach the Node, apply the delete job if outputs and secret are there, let go when no outputs can be read |
| ClusterEffects.LiveWorkerReconciled | controllers/infra/workernode_controller.go:66-115 | the whole store after reconciling a worker not being deleted: a create job if and only if it was held, its secret is there and no outputs can be read |
| ClusterEffects.DeletedWorkerReconciled | controllers/infra/workernode_controller.go:496-524 | the whole store after reconciling one being deleted: Node first, then the delete job, then it goes |
| ClusterEffects.AbsentReconciled | controllers/infra/workernode_controller.go:66-71 | reconciling an object that is not there does nothing |
| ClusterEffects.WorkerAdded | controllers/infra/nodepool_controller.go:297-339 | when a worker is added, with which fields, and that nothing else changes |
| ClusterEffects.DeleteRequested | controllers/infra/nodepool_controller.go:356-366 | a deletion marks the object, or removes one that has no finalizers |
| TeardownSafety.ReachableCustody | controllers/infra/nodepool_controller.go:111-152 | without shared names every worker's pool and every pool's labelled edge exist and are held, in every reachable store |
| TeardownSafety.WorkersAncestorsExist | controllers/infra/edge_controller.go:302-356 | the same spelled out for one worker |
| TeardownSafety.CustodyProtectsSecrets | controllers/infra/cloudprovider_controller.go:119-136 | a store in custody takes no step that deletes a needed secret |
| TeardownSafety.CollisionRun | controllers/infra/edge_controller.go:240 | for any two edges sharing a NodePool name, a run that deletes the secret of a living worker |
| TeardownSafety.CredentialsOutliveWorkersExactly | controllers/infra/cloudprovider_controller.go:88-136 | no run deletes a secret a worker's jobs need (`getJobCrd`), if and only if no two declared edges share a NodePool name |
| TeardownSafety.SafeWithWholeReconciles | controllers/infra/edge_controller.go:153-211 | the same exact condition when pool reconciles are not interrupted |
| TeardownSafety.NamesCanCollide | controllers/infra/edge_controller.go:240 | edges "a" with pool "b-c" and "a-b" with pool "c" are not safe |
| TeardownProgress.ReachableStaged | controllers/infra/workernode_controller.go:286-360 | in every reachable store a Node, machine or create job has a worker with the operator's finalizer, and delete jobs are for deleting workers' machines, Nodes and machines that appear late included |
| TeardownProgress.LeavesBehindExactly | controllers/infra/workernode_controller.go:496-524 | in any reachable store a step lets a worker go with a Node, machine or create job left if and only if it reconciles that worker when it is deleting, its Node is gone, and its machine's outputs cannot be read or its machine is still being made |
| TeardownProgress.MachineLeftBehind | lib/terraform/main.go:27-45 | for any declared pool, a run to a step that lets a worker go with its machine running, the provider's secret notwithstanding |
| TeardownProgress.CreateJobLeftBehind | controllers/infra/workernode_controller.go:315-346 | and one to a step that lets it go while its machine is being made |
| TeardownProgress.EffectiveStepFalls | controllers/infra/workernode_controller.go:496-524 | every effective finalize or finished job lowers the count of objects and worker stages left |
| TeardownProgress.SomethingCanMove | controllers/infra/edge_controller.go:276-357 | in any draining store with credentials, while anything is left some finalize or job has an effect and keeps the credentials |
| TeardownProgress.EffectiveRunIsShort | controllers/infra/nodepool_controller.go:105-153 | from any draining store, with or without credentials, effective steps in any order are bounded by the measure |
| TeardownProgress.TeardownEndsEmpty | controllers/infra/nodepool_controller.go:105-153 | from any draining store the effective steps are bounded, and wherever the credentials are still there nothing can move if and only if the store is empty |
| TeardownProgress.CollisionDeadlocks | controllers/infra/edge_controller.go:240 | for any two edges sharing a NodePool name, a run to a drained store with all its secrets and a teardown of it that ends with a worker, its machine and no secret |
| TeardownProgress.NeverDeadlocksExactly | controllers/infra/cloudprovider_controller.go:83-137 | no teardown of a reachable drained store with credentials stops before it is empty, if and only if no two declared edges share a NodePool name |
| TeardownProgress.TeardownExactly | controllers/infra/workernode_controller.go:137-147 | from any draining store and whatever outputs cannot be read, some order of steps clears it if and only if every other machine to be destroyed has its provider's secret |
| TeardownProgress.UnreadableNeedsNoSecret | controllers/infra/workernode_controller.go:515-523 | with no outputs readable it is cleared without any secret, machines running |
| RawJsons.RawJson.FillMap | lib/raw-json/main.go:38-55 | the cache equals the bytes afterwards, in a fresh map unless there were no bytes to refill from |
| RawJsons.RawJson.Set | lib/raw-json/main.go:76-80 | map update; bytes and cache agree |
| RawJsons.RawJson.SetFromMap | lib/raw-json/main.go:82-88 | map union, in any iteration order |
| RawJsons.RawJson.Exists | lib/raw-json/main.go:90-98 | whether any of the keys is there |
| RawJsons.RawJson.Delete | lib/raw-json/main.go:100-108 | key removal, whether or not bytes are rewritten |
| RawJsons.RawJson.Get | lib/raw-json/main.go:110-126 | lookup with the missing-key error |
| RawJsons.RawJson.Len | lib/raw-json/main.go:71-74 | number of keys |
| RawJsons.RawJson.Reset | lib/raw-json/main.go:57-60 | the empty map |
| RawJsons.RawJson.DeepCopyInto | lib/raw-json/main.go:19-21 | same value; the two are apart, for the operations of this file, if and only if there are bytes or no decoded map |
| RawJsons.Interleave | lib/raw-json/main.go:19-139 | any interleaving of operations on two values that are apart answers as two plain maps would |
| RawJsons.CopyThenSet | lib/raw-json/main.go:19-21 | in the one other state the copy sees the original's next write |
| RawMessages.RawMessage.UnmarshalJSON | lib/raw-json/main.go:16 | the embedded `json.RawMessage` decodes into its array when that is large enough, keeping the rest of it, and else into a new one |
| RawMessages.CopyThenUnmarshal | lib/raw-json/main.go:19-21 | a copy survives a later decode into the original if and only if the array is too small, or one text starts with the other |
| Requests.Request.EnsureChecks | lib/operator.v2/request.go:172-195 | adds missing checks and stops; after proceeding the Checks map is not nil |
| Requests.AddMissingGrows | lib/operator.v2/request.go:180-186 | comparing sizes tells exactly whether a name was missing |
| Requests.Request.ClearStatusIfAnnotated | lib/operator.v2/request.go:197-224 | clears the status once and removes the annotation, or records the refused write |
| Requests.Request.RestartIfAnnotated | lib/operator.v2/request.go:226-250 | removes the annotation and stops |
| Requests.Request.EnsureLabelsAndAnnotations | lib/operator.v2/request.go:75-104 | proceeds only when all are contained, else merges and stops |
| Requests.Request.EnsureFinalizers | lib/operator.v2/request.go:252-265 | adds both finalizers and stops |
| Requests.Request.CheckFailed | lib/operator.v2/request.go:267-278 | the check, its message and IsReady together; needs a non-nil Checks map |
| Requests.Request.UpdateStatus | lib/operator.v2/request.go:299-318 | drops the messages of exactly the checks that hold, in any iteration order |
| Requests.Request.Reconcile | controllers/common/device_controller.go:69-136 | one round of the pipeline, gates that stop, go on or fail under another name included; CheckFailed is never reached with a nil map |
| RoundEffects.MetadataAfter | lib/operator.v2/request.go:75-104 | labels, annotations, finalizers and generation after any round |
| RoundEffects.MissingChecksAdded | lib/operator.v2/request.go:172-195 | missing checks are added unset, and nothing else changes in that round |
| RoundEffects.StatusCleared | lib/operator.v2/request.go:197-224 | an accepted clear leaves no checks, no messages and not ready |
| RoundEffects.StatusWhileMeta | lib/operator.v2/request.go:197-265 | other metadata rounds leave checks and messages alone |
| RoundEffects.GateEnds | lib/operator.v2/request.go:267-318 | how the gate that ends a round leaves the status, relative to that in which it is reached, which is given check by check and message by message |
| RoundEffects.AllGatesPassed | controllers/common/device_controller.go:133-135 | a round past all gates sets IsReady and has them all hold |
| RoundEffects.StopChangesNothing | lib/operator.v2/request.go:284-293 | a stopping gate reached while the earlier ones hold leaves the object as it was |
| RoundEffects.OpErrorOnlyUnreadies | lib/operator.v2/request.go:139-170 | an operation error so reached changes IsReady alone |
| RoundEffects.ReadyLostExactly | lib/operator.v2/request.go:139-278 | exactly when a round takes IsReady away |
| RoundEffects.ReadyGainedExactly | controllers/common/device_controller.go:69-136 | exactly when a round gives it |
| Readiness.StatusAlwaysSound | lib/operator.v2/request.go:267-318 | over all runs IsReady means all gating checks are true, and Message holds exactly the reported failures with their own messages |
| Readiness.FailureIsReported | lib/operator.v2/request.go:267-278 | a failing gate reached by a round ends it not ready, with its message stored under the name it used |
| Readiness.TickLowers | lib/operator.v2/request.go:172-265 | each good round brings the object exactly one round closer |
| Readiness.ReadyIsFixpoint | controllers/common/device_controller.go:133-135 | zero rounds to go if and only if a round changes nothing; then Ready and current |
| Readiness.ReadyInExactly | lib/operator.v2/request.go:172-318 | from any stored status Ready after exactly the computed number of rounds, and not at a fixpoint earlier |
| Readiness.RoundsBounded | lib/operator.v2/request.go:172-318 | that number is at most seven and one for each gate that ends its round when recorded |
| Readiness.DeviceReadyInEleven | controllers/common/device_controller.go:75-135 | a Device is Ready for good after at most eleven rounds in which its check bodies pass |
| Readiness.AccountReadyInEleven | controllers/common/account/account_controller.go:86-186 | so is an Account, whose six gates include two that do not end their round (lines 211-214 and 594-597) |
| Text.SortSorts | controllers/common/account/account_controller.go:1058-1062 | the sort sorts |
| Text.SortOfSorted | controllers/common/account/account_controller.go:1085-1089 | sorting the sorted list again before the write changes nothing |
| Text.LessEqExactly | controllers/common/account/account_controller.go:1020 | the order sorted by is that of the first differing character, beginnings first |
| Text.DigitsAreDecimal | controllers/common/account/account_controller.go:1045 | numbers in ids and addresses are decimal numerals without leading zeros |
| Addressing.DeviceIpInjective | controllers/common/account/account_controller.go:1161-1170 | distinct offsets have distinct addresses and distinct peer AllowedIPs |
| Addressing.InsideNetwork | controllers/common/account/account_controller.go:1162 | exactly offsets -2..65533 stay inside 10.13.0.0/16 |
| Addressing.DeviceIpSpelled | controllers/common/account/account_controller.go:1161-1170 | there the address is 10.13.x.y with x and y the digits of offset + 2 in base 256 |
| Addressing.ServerAddressClash | controllers/common/account/account_controller.go:480 | exactly offset 3327 is given the server's own 10.13.13.1 |
| Wireguard.CollectPeers | controllers/common/account/account_controller.go:489-506 | the peers, in order, of the secrets that have both fields |
| Wireguard.ServerSecret.ReconWGServerConfig | controllers/common/account/account_controller.go:440-555 | the stored configuration, that it is written exactly when it changes, and when a failure is reported |
| Wireguard.ConfigIgnoresListing | controllers/common/account/account_controller.go:483-487 | the configuration does not depend on the order in which secrets are listed, so listing them otherwise writes nothing |
| Wireguard.ConfigHeader | controllers/common/account/account_controller.go:480-481 | the server's address and the private key given |
| Wireguard.PeersExactly | controllers/common/account/account_controller.go:489-506 | a peer, with that key and address, for exactly the secrets that have both fields |
| Wireguard.PeersInOrder | controllers/common/account/account_controller.go:483-487 | in the order of the secrets' names |
| Wireguard.PeersDisjoint | controllers/common/account/account_controller.go:500-506 | no two peers claim the same address when device offsets differ |
| Wireguard.ServerAddressTaken | controllers/common/account/account_controller.go:480-506 | some peer claims the server's own address if and only if a listed device has offset 3327 |
| ProxyConfig.TempPort | controllers/common/account/account_controller.go:988-1010 | the stored port of a known id, else one of 3000..5999; the retry loop ends |
| ProxyConfig.ReconDevProxyConfig | controllers/common/account/account_controller.go:955-1114 | the stored list after a reconcile, whether it was written, and when missing devices or regions are reported |
| ProxyEntries.StoredEntries | controllers/common/account/account_controller.go:1026-1114 | with any port declared, every entry stored after a reconcile has the id, address, service port and proxy port due to a declared port, every declared port has its entry, and they are sorted by address |
| ProxyEntries.WrittenOrNot | controllers/common/account/account_controller.go:1073-1083 | a write happens if and only if the stored list changes, and never without declared ports |
| ProxyEntries.OldPortsExactly | controllers/common/account/account_controller.go:972-976 | the port kept for an id is that of its last stored entry |
| ProxyConfig.UpdateServices | controllers/common/device_controller.go:255-317 | the service ports, the placeholder, or the error |
| ProxyEntries.ServiceExactly | controllers/common/device_controller.go:255-283 | there is a service if and only if every port is found, and then each service port has its own name and port and the proxy port stored first for it |
| ProxyConfig.CheckPortsDiffer | controllers/common/device_controller.go:810-827 | whether counts or ports differ position by position |
| ProxyStability.PortIdInjective | controllers/common/account/account_controller.go:1045 | name-port ids determine name and port, dashes in names included |
| ProxyStability.DeclaredOnceExactly | controllers/common/account/account_controller.go:1026-1045 | for devices of different names the declared ids are distinct if and only if no device lists a port twice |
| ProxyStability.WrittenIsDeclared | controllers/common/account/account_controller.go:1026-1057 | a written list has exactly the declared ids, each once if and only if each is declared once |
| ProxyStability.PortSettles | controllers/common/account/account_controller.go:972-991 | over any run of any device lists, a known id that stays declared has all its entries at the port of its last old entry, from the next reconcile on |
| ProxyStability.PortStable | controllers/common/account/account_controller.go:972-991 | so it keeps its proxy port if and only if its first and last entries agree on it |
| ProxyStability.AgreeWhileListedOnce | controllers/common/account/account_controller.go:972-991 | they always do while no device lists a port twice |
| ProxyStability.SettlesExactly | controllers/common/account/account_controller.go:1073-1083 | whatever was stored and drawn, reconciling the same devices again writes nothing, if and only if the declared ids are distinct |
| ProxyStability.SettledAfterTwo | controllers/common/account/account_controller.go:1073-1083 | and reconciling a third time writes nothing in any case |
| ProxyStability.ReconcileAgainWritesNothing | controllers/common/account/account_controller.go:1073-1083 | with no port listed twice, nor does reconciling the devices listed in another order |
| ProxyStability.ControllersAgree | controllers/common/device_controller.go:255-283 | every declared port of every listed device is found, and checkPortsDiffer is true afterwards exactly for devices without ports |
| ProxyStability.FoundAsDeclaredExactly | controllers/common/device_controller.go:255-265 | each is found at its own entry's proxy port, for all draws, if and only if no id is declared in two different ways |
| Deployments.Namespace.UpdateDeployments | controllers/common/account/account_controller.go:602-680 | the deployments afterwards and whether an error was returned |
| Deployments.ListedRegionsSettled | controllers/common/account/account_controller.go:645-678 | on success a listed region has its deployment exactly when some device is active in it |
| Deployments.OthersUntouched | controllers/common/account/account_controller.go:645-678 | all other deployments are untouched, also on failure |
| Deployments.FailsExactly | controllers/common/account/account_controller.go:647-656 | it fails exactly when a region to be torn down is listed twice |
| Deployments.UpdateExactly | controllers/common/account/account_controller.go:602-680 | the three of them in terms of the devices' active regions and deployment names |
| Deployments.FailureStopsThere | controllers/common/account/account_controller.go:647-656 | a failing update has done exactly what the regions before the repeated one ask for |
| Conditions.Patch | lib/conditions/main.go:30-75 | result, flag and exactly which conditions of `source` are written to |
| Conditions.OneKept | lib/conditions/main.go:35-60 | each condition of `dest` is dropped, kept verbatim or replaced by the source's first of its type, with that one's time unless zero |
| Conditions.PatchedInOrder | lib/conditions/main.go:30-73 | those in the order of `dest`, then the new ones in the order of the source |
| Conditions.SourceWritten | lib/conditions/main.go:42-55 | afterwards the source has its first conditions of a type that some condition of `dest` does not echo spelled out in place, and the others as they were |
| Conditions.PatchedKinds | lib/conditions/main.go:35-73 | the result has exactly the source's types, each once for inputs without repeats |
| Conditions.PatchedAgrees | lib/conditions/main.go:42-60 | it agrees with the source on status, message and reason (an empty reason being NotSpecified) if and only if the source does not say different things of a type `dest` lacks |
| Conditions.UpdatedExactly | lib/conditions/main.go:34-71 | the flag is false if and only if the result is `dest` |
| Conditions.PatchIdempotent | lib/conditions/main.go:30-75 | patching the result again with the same source changes nothing, and says so, under the same condition exactly |
| Conditions.DistinctSaysOne | lib/conditions/main.go:30-75 | which holds of any source that repeats no type |
| Conditions.FailureLog.FailWith | lib/operator.v2/request.go:106-170 | the conditions after one recorded failure with any extra conditions; not ready |
| Conditions.FailuresBounded | lib/operator.v2/request.go:111-131 | any number of failures without extra conditions keeps the existing ones verbatim and adds at most the first FailedWithErr |
| Conditions.FailureSaid | lib/operator.v2/request.go:111-121 | the one that joins has status False and the first failure's reason, message and time |
| Conditions.Equal | lib/functions/conditions.go:412-426 | the loop's answer |
| Conditions.EqualFieldwise | lib/functions/conditions.go:412-426 | equal length, and the first of each type in the second list has the same status, reason and message |
| Conditions.EqualIsSetEquality | lib/functions/conditions.go:412-426 | on lists without repeated types it is equality as sets, times aside |
| Conditions.EqualTransitive | lib/functions/conditions.go:412-426 | transitive on all lists |
| Conditions.EqualReflexiveExactly | lib/functions/conditions.go:412-426 | a list equals itself if and only if no two of its conditions of one type differ; one that has such equals nothing |
| Conditions.EqualSymmetricExactly | lib/functions/conditions.go:412-426 | symmetric for a first argument if and only if that repeats no type, or has conditions of one type that differ |
| Conditions.EqualIsEquivalence | lib/functions/conditions.go:412-426 | on lists without repeated types all three hold |
| Conditions.EqualNotSymmetric | lib/functions/conditions.go:412-426 | any condition listed twice is an input on which it is not symmetric |

## Left out

- Rcalculate.Input.Calculate: Go's 64-bit wrap-around is not modelled, because memory sums stay far below it; usage totals are naturals, as sums of pod requests are.
- NodePool.WorkerStore.ReconWorkerNodes: API errors and missing instance details, on which a reconcile has no effect, are left out; Create, Delete and CreateOrUpdate take effect at once; a terminating worker still listed is covered only by `PoolSafety.IndicesStayDistinct`. The statuses it writes are those of `Requests`.
- Cluster.Controllers.ReconcileCloudProvider: its labels and its checks are not modelled; the deletion protocol reads neither.
- Cluster.Controllers.ReconcileEdgeObject: annotations, owner references and the Region object are not modelled; the deletion protocol does not read them.
- Cluster.Controllers.ReconPool: likewise without the owner-reference round of PatchDefaults; that it waits for the provider is modelled.
- Cluster.Controllers.ReconcileNodePool: the status rounds (missing checks, annotations) before the finalizer rounds are those of `Requests` and do not touch what the store holds.
- Cluster.Controllers.ReconcileWorkerNode: the create job that its own reconcile deletes is one that either goes on to make a machine or gets lost, whichever the outside world decides; a refused API call leaves the store as it is, like a reconcile that did not happen; malformed provider secrets are not modelled. What the jobs and the Node itself do are steps of the outside world.
- TeardownProgress.LeavesBehindExactly: that a worker is never let go with its machine running is not promised, because the code takes unreadable terraform outputs for no machine.
- TeardownProgress.TeardownEndsEmpty: counts finalizers and delete jobs only; a Node that joins or a create job that ends in between adds work, and a failing delete job is one that never finishes.
- Cluster: users do not remove provider secrets, strip labels or finalizers, edit specs during a run, or create WorkerNodes or NodePools by hand; every reconcile is atomic, except that each applied NodePool document may be its own step.
- Readiness.DeviceReadyInEleven: says nothing of rounds in which a check body fails or stops.
- Requests.Request.Reconcile: times, conditions and the finalize path are not part of a round; bodies of the checks are outcomes (pass, failure, stop, operation error); all status writes of one round succeed or all fail.
- RawJsons.RawJson.Set: `encoding/json` is any codec that round-trips; values it cannot encode are not modelled, and bytes it cannot decode, on which the source panics, are excluded by `Valid`.
- ProxyConfig.ReconDevProxyConfig: `sort.Slice` is a stable sort, `ipaddr.Increment` adds to the network address, and notifying regions over HTTP is left out; creating the empty config map is the empty list.
- ProxyConfig.TempPort: proxy ports of different services may coincide, as in the source, whose check compares service ports.
- Text.SortOfSorted: `sort.Slice` promises no stability, and the ports of one device share an address; the model's sort is stable.
- Conditions.FailureLog.FailWith: a refused status write leaves the stored conditions as they were.
- Deployments.Namespace.UpdateDeployments: the only API error is NotFound on deletion.
- Deleting nodes because n > Max, as `lib/kresource/task.md` asks, is not in the code and not in the model.
- `conditions2.Build` and `statusConditions.Build` wrap SetStatusCondition of a library that is not part of this model.
- Wireguard.ServerSecret.ReconWGServerConfig: the template is any function of its data, and API calls other than the first read succeed.
- DNS rewriting, key generation, templates and all other I/O.
