# NodeCanvas runtime kernel and SteamVR camera stack, in Dafny

This project models the core runtime of the NodeCanvas visual-scripting framework
and the camera stack of the SteamVR renderer, and proves properties of the model.

- **Node graph** (`Graphs`, `NodeExecution`, `NodeReset`, `NodeIds`). The graph is
  an immutable `Topology` plus a `RunState` that operations thread through:
  - the `Topology` holds each node's connection bounds and its incoming and
    outgoing connection lists, plus each connection's endpoints and active flag;
  - the `RunState` holds node statuses, the `isChecked` recursion guards, node
    IDs, connection statuses, the paused flag, and a log of `OnReset` calls.

  The modelled `Node` operations are `Execute`, `Reset`, `IsNewConnectionAllowed`,
  `AssignIDToGraph`, `ResetRecursion`, `GetParentNodes` and `GetChildNodes`.
- **ActionTask** (`ActionTasks`): the action lifecycle, covering `ExecuteAction`,
  `EndAction`, `PauseAction`, `elapsedTime` and the end-of-action latch.
  - What a concrete action's `OnExecute`/`OnUpdate` does to its own task is an
    input (`HookCall`).
  - The clock is an integer `now`.
- **ImplementedAction_Multiplatform** (`ImplementedActions`): the action that
  forwards a user method's `Status` to `EndAction`.
- **ConditionList** (`ConditionLists`): short-circuit evaluation under
  "all true" and "any true", `AddCondition`, and the rebuild inside `Duplicate`.
- **AnyState** (`AnyStates`): its connection bounds and its per-frame
  transition poll.
- **SteamVR_Render** (`CameraStack`): the depth-sorted camera array, covering
  `AddInternal`, `RemoveInternal` and `TopInternal`, and the static
  `Add`/`Remove`/`Top` with their quitting guards.
- **GraphOwner** (`GraphOwners`): the instance cache (`GetInstance`), the
  `behaviour` setter, `Start`/`OnEnable`/`OnDisable`, and `SwitchBehaviour`.
  Graphs are identities (`nat`). Cloning allocates a fresh identity, and the
  calls an owner makes on its graphs are appended to a command log.

Paths in the table below are relative to the repository root.

## Model

| member | source | states |
|---|---|---|
| Graphs.ChildNodes | Assets/NodeCanvas/Framework/Runtime/Graphs/Node.cs:375-379 | one entry per outgoing connection, in order: the target of that connection (empty when there are none) |
| Graphs.ParentNodes | Assets/NodeCanvas/Framework/Runtime/Graphs/Node.cs:368-372 | one entry per incoming connection, in order: the source of that connection |
| Graphs.ChildParentDuality | Assets/NodeCanvas/Framework/Runtime/Graphs/Node.cs:367-379 | m is among n's child nodes exactly when n is among m's parent nodes |
| Graphs.IsNewConnectionAllowed | Assets/NodeCanvas/Framework/Runtime/Graphs/Node.cs:315-338 | an admitted connection is never a self-loop nor an input into a prime node that takes one input, and it leaves both of its ends within their bounds when they were |
| Graphs.AdmissionCharacterised | Assets/NodeCanvas/Framework/Runtime/Graphs/Node.cs:315-338 | on a graph within its bounds, a connection source→target is admitted exactly when it is not a self-loop, the target is not a prime node that takes one input, and the graph after connecting still respects every node's in/out bounds |
| Graphs.ConnectKeepsValid | Assets/NodeCanvas/Framework/Runtime/Graphs/Node.cs:315-338 | adding an admitted connection keeps the graph's connection lists consistent with its connections |
| NodeExecution.Execute | Assets/NodeCanvas/Framework/Runtime/Graphs/Node.cs:226-245 | a guarded node reports Error and changes nothing; an editor breakpoint on a resting node sets it Running, pauses the graph and skips OnExecute; otherwise the node's status becomes what OnExecute returns; guards are left as they were and no other node's status changes |
| NodeExecution.BreakpointSkipsHook | Assets/NodeCanvas/Framework/Runtime/Graphs/Node.cs:231-236 | at a breakpoint the result does not depend on OnExecute at all |
| NodeExecution.DefaultHookIsPassThrough | Assets/NodeCanvas/Framework/Runtime/Graphs/Node.cs:239-244 | with the default OnExecute, which returns the current status, Execute changes nothing and returns that status |
| NodeExecution.ExecuteChain | Assets/NodeCanvas/Framework/Runtime/Graphs/Node.cs:226-245 | along a chain of nodes each executing the next: guards are restored afterwards; the result is Error exactly when some node is re-entered while guarded, otherwise the last node's verdict, which every node of the chain then holds; only statuses of nodes on the chain change, each to the returned status |
| NodeExecution.ChainStepIsExecute | Assets/NodeCanvas/Framework/Runtime/Graphs/Node.cs:226-245 | each step of the chain is Execute on its head node: a guarded head gives Execute's re-entry error, a single node is Execute with the leaf hook, and otherwise the rest of the chain runs with the head guarded and Execute stores and returns what it reported |
| NodeExecution.CycleReportsError | Assets/NodeCanvas/Framework/Runtime/Graphs/Node.cs:228-229 | executing around a cycle that returns to its start reports Error ("Infinite Loop") and leaves every guard cleared |
| NodeReset.ResetNode | Assets/NodeCanvas/Framework/Runtime/Graphs/Node.cs:254-266 | a resting or guarded node is left alone; otherwise OnReset is called on it first and it ends Resting; only statuses, the reset log and connection statuses change, each reset node's outgoing connections end Resting, guards are restored, and when all guarded nodes rest beforehand each reset node's children rest afterwards; every node reset after n is a child of a node reset before it |
| NodeReset.ResetConns | Assets/NodeCanvas/Framework/Runtime/Graphs/Node.cs:262-264 | the loop over outgoing connections resets each connection from the k-th on and recurses into its target, with the same effect guarantees; the nodes it resets hang below n, each a child of n or of a node reset before it |
| NodeReset.ResetReachesPendingPaths | Assets/NodeCanvas/Framework/Runtime/Graphs/Node.cs:254-266 | every node on a path of non-resting nodes starting at n is Resting after resetting n |
| NodeReset.ResetOnlyReachesPending | Assets/NodeCanvas/Framework/Runtime/Graphs/Node.cs:254-266 | conversely, every node a reset of n calls OnReset on is reached from n along a path whose nodes were all neither resting nor guarded beforehand |
| NodeReset.RestingNodeShieldsItsChildren | Assets/NodeCanvas/Framework/Runtime/Graphs/Node.cs:256-257 | in the chain 0→1→2 with node 1 already resting, resetting node 0 leaves node 2 running |
| NodeIds.AssignID | Assets/NodeCanvas/Framework/Runtime/Graphs/Node.cs:341-354 | a guarded node returns the counter unchanged; otherwise the node is guarded and gets the next ID; only guards and IDs change, guards are only set, and newly numbered nodes get IDs in (last, returned] |
| NodeIds.AssignConnsChildFirst | Assets/NodeCanvas/Framework/Runtime/Graphs/Node.cs:346-351 | the loop numbers children in connection order, each subtree before the next sibling: the k-th child, when still unguarded, gets the next ID; the nodes numbered by the pass into it keep the IDs in (last, m], where m is the counter that pass returns; and every node the rest of the loop numbers gets an ID above m; with n numbered before its loop, this is a depth-first pre-order |
| NodeIds.AssignIDFresh | Assets/NodeCanvas/Framework/Runtime/Graphs/Node.cs:341-354 | the IDs handed out are pairwise distinct and there are exactly returned − last of them |
| NodeIds.AssignIDTree | Assets/NodeCanvas/Framework/Runtime/Graphs/Node.cs:341-354 | the numbered nodes form a tree below the start node: each one other than the start is a child of a numbered node with a smaller ID |
| NodeIds.AssignIDReachesAll | Assets/NodeCanvas/Framework/Runtime/Graphs/Node.cs:341-354 | from a graph with no guard set, every node reachable from the start node ends guarded with an ID in (last, returned] |
| NodeIds.ResetRecursion | Assets/NodeCanvas/Framework/Runtime/Graphs/Node.cs:356-364 | an unguarded node stops the walk; otherwise only guards change, guards are only cleared, and the node ends unguarded |
| NodeIds.ResetRecursionClearsBelow | Assets/NodeCanvas/Framework/Runtime/Graphs/Node.cs:356-364 | every node whose guard the walk clears ends with all its children unguarded |
| NodeIds.ResetRecursionUndoesAssignID | Assets/NodeCanvas/Framework/Runtime/Graphs/Node.cs:341-364 | from a graph with no guard set, numbering from n and then ResetRecursion from n clears every guard and leaves everything but IDs as before |
| NodeIds.AssignIDIgnoresOldIds | Assets/NodeCanvas/Framework/Runtime/Graphs/Node.cs:341-354 | two passes from states that differ only in IDs number the same nodes alike and return the same last ID |
| NodeIds.AssignIDReproducible | Assets/NodeCanvas/Framework/Runtime/Graphs/Node.cs:341-364 | numbering again after ResetRecursion gives exactly the same IDs and last ID |
| ActionTasks.ExecuteAction | Assets/NodeCanvas/Framework/Runtime/Tasks/ActionTask.cs:87-118 | inactive gives Failure; a pause is resumed by moving the start time forward; a running task runs OnUpdate, a fresh start sets the start time to now and runs OnExecute, and either reports Running unless the hook ended the action (Success only for EndAction(true), Failure otherwise, with OnStop run) and is paused at now exactly when the hook paused it; a latched end is reported once and the latch cleared; a failed bind deactivates and fails |
| ActionTasks.ElapsedTime | Assets/NodeCanvas/Framework/Runtime/Tasks/ActionTask.cs:41-50 | while running unpaused it is the time since the start; while paused it is the time from the start to the pause; an idle task has 0 |
| ActionTasks.EndAction | Assets/NodeCanvas/Framework/Runtime/Tasks/ActionTask.cs:122-131 | only a running task is affected: it unpauses, becomes Success only for true, latches unless cancelled, and calls OnStop |
| ActionTasks.PauseAction | Assets/NodeCanvas/Framework/Runtime/Tasks/ActionTask.cs:134-142 | only a running task is affected: it records the pause time, becomes paused and calls OnPause |
| ActionTasks.OperationsKeepTaskInv | Assets/NodeCanvas/Framework/Runtime/Tasks/ActionTask.cs:87-142 | ExecuteAction, EndAction and PauseAction keep the task invariant: paused only while running, latched only on Success or Failure, never Error |
| ActionTasks.ExecuteReportsNoRestOrError | Assets/NodeCanvas/Framework/Runtime/Tasks/ActionTask.cs:87-118 | ExecuteAction reports only Running, Success or Failure |
| ActionTasks.EndInsideOnExecute | Assets/NodeCanvas/Framework/Runtime/Tasks/ActionTask.cs:113-117 | an EndAction inside OnExecute is reported by that same call and leaves no latch |
| ActionTasks.LatchedEndReportedOnce | Assets/NodeCanvas/Framework/Runtime/Tasks/ActionTask.cs:103-106 | after an external EndAction(true/false), the next ExecuteAction reports that verdict without running a hook, and the one after starts afresh |
| ActionTasks.CancelRestartsAtOnce | Assets/NodeCanvas/Framework/Runtime/Tasks/ActionTask.cs:122-131 | after a cancel (EndAction(null)) the next ExecuteAction starts the action again |
| ActionTasks.CancelAndFailureDiffer | Assets/NodeCanvas/Framework/Runtime/Tasks/ActionTask.cs:128-129 | a failure is reported on the next call, while a cancel restarts the action |
| ActionTasks.PauseFreezesElapsedTime | Assets/NodeCanvas/Framework/Runtime/Tasks/ActionTask.cs:41-50 | while paused, elapsedTime stays at its value at the moment of pausing |
| ActionTasks.ResumeExcludesPause | Assets/NodeCanvas/Framework/Runtime/Tasks/ActionTask.cs:92-95 | after resuming, elapsedTime excludes the paused interval |
| ActionTasks.IdleTaskHasNoElapsedTime | Assets/NodeCanvas/Framework/Runtime/Tasks/ActionTask.cs:41-50 | a task neither paused nor running has elapsedTime 0 |
| ImplementedActions.Forward | Assets/NodeCanvas/Tasks/Actions/ScriptControl/Multiplatform/ImplementedAction_Multiplatform.cs:55-69 | Success is forwarded as EndAction(true) and Failure as EndAction(false), each exactly then; any other status calls nothing |
| ImplementedActions.OnInit | Assets/NodeCanvas/Tasks/Actions/ScriptControl/Multiplatform/ImplementedAction_Multiplatform.cs:46-50 | an error exactly when no target method resolves |
| ImplementedActions.EndImplemented | Assets/NodeCanvas/Tasks/Actions/ScriptControl/Multiplatform/ImplementedAction_Multiplatform.cs:71-73 | ending a running action resets the stored status to Resting through OnStop; a non-running one is unchanged |
| ImplementedActions.TrackActionStatus | Assets/NodeCanvas/Tasks/Actions/ScriptControl/Multiplatform/ImplementedAction_Multiplatform.cs:52-73 | the stored status after a run of hooks: what the method returned when OnExecute or OnUpdate ran last, Resting when OnStop ran last, unchanged when no hook ran |
| ImplementedActions.ExecuteImplemented | Assets/NodeCanvas/Tasks/Actions/ScriptControl/Multiplatform/ImplementedAction_Multiplatform.cs:52-73 | an inactive action fails and changes nothing; when OnExecute or OnUpdate runs, a Success or Failure from the method is the result of the call, and any other status keeps the task running with that status stored; when no hook runs, the stored status is kept |
| ImplementedActions.FreshStartForwardsEnd | Assets/NodeCanvas/Tasks/Actions/ScriptControl/Multiplatform/ImplementedAction_Multiplatform.cs:52-73 | on a fresh start, Success or Failure from the method ends the action on that call with that result, and OnStop leaves the stored status Resting |
| ImplementedActions.FreshStartForwardsRunning | Assets/NodeCanvas/Tasks/Actions/ScriptControl/Multiplatform/ImplementedAction_Multiplatform.cs:52-73 | on a fresh start, any other status from the method keeps the action running with that status stored |
| ImplementedActions.UpdateForwards | Assets/NodeCanvas/Tasks/Actions/ScriptControl/Multiplatform/ImplementedAction_Multiplatform.cs:52-73 | while running, the method's verdict is forwarded the same way |
| ImplementedActions.EndingVerdictRestartsNextPoll | Assets/NodeCanvas/Tasks/Actions/ScriptControl/Multiplatform/ImplementedAction_Multiplatform.cs:55-69 | an end decided inside the hook is not latched, so the next poll runs OnExecute again |
| ConditionLists.OnCheck | Assets/NodeCanvas/Framework/Runtime/Tasks/ConditionList.cs:62-84 | the result is the list's verdict (all active children hold, or some active child holds or none is active), and exactly the active children up to the deciding one are checked, in order |
| ConditionLists.ActiveBelowIsActiveInOrder | Assets/NodeCanvas/Framework/Runtime/Tasks/ConditionList.cs:64-71 | the children checked are exactly the active ones, in increasing order: inactive children are never checked |
| ConditionLists.VerdictAtStop | Assets/NodeCanvas/Framework/Runtime/Tasks/ConditionList.cs:71-83 | the verdict is fixed by the first deciding child; without one, "all true" holds, and "any true" holds exactly when every child is inactive |
| ConditionLists.InactiveThenFalse | Assets/NodeCanvas/Framework/Runtime/Tasks/ConditionList.cs:62-84 | with "any true", an inactive child followed by a false one gives false |
| ConditionLists.AddCondition | Assets/NodeCanvas/Framework/Runtime/Tasks/ConditionList.cs:96-112 | a nested list is refused and the list is unchanged; anything else is appended at the end |
| ConditionLists.Duplicate | Assets/NodeCanvas/Framework/Runtime/Tasks/ConditionList.cs:52-60 | the copy holds the children that are not lists, in order |
| ConditionLists.FlatListsDuplicateExactly | Assets/NodeCanvas/Framework/Runtime/Tasks/ConditionList.cs:52-60 | a list with no nested list is duplicated exactly |
| AnyStates.AnyStateAdmitsNoIncoming | Assets/NodeCanvas/Modules/StateCanvas/Nodes/AnyState.cs:15-17 | no connection into an AnyState is ever admitted |
| AnyStates.FirstFiring | Assets/NodeCanvas/Modules/StateCanvas/Nodes/AnyState.cs:26-38 | the first transition that is active, has a condition and holds; none before it fires |
| AnyStates.ScanCharacterised | Assets/NodeCanvas/Modules/StateCanvas/Nodes/AnyState.cs:26-41 | the scan from transition k marks the evaluated transitions before the first firing one Failure and the firing one Success, enters its target, and touches nothing else |
| AnyStates.UpdateCharacterised | Assets/NodeCanvas/Modules/StateCanvas/Nodes/AnyState.cs:19-42 | with no transitions nothing changes; otherwise the node becomes Running, the poll marks transitions as above, enters the first firing target if any, and changes no other connection |
| AnyStates.UpdateSettles | Assets/NodeCanvas/Modules/StateCanvas/Nodes/AnyState.cs:19-42 | polling again with the same condition outcomes gives the same state and entered state |
| CameraStack.InsertionPoint | Assets/SteamVR/Scripts/SteamVR_Render.cs:83-92 | every camera before the point is no deeper than the new one, and the camera at the point is deeper |
| CameraStack.Insert | Assets/SteamVR/Scripts/SteamVR_Render.cs:77-95 | the new camera is at the insertion point, with the cameras before it and after it kept in order; the result is the old multiset plus the camera |
| CameraStack.InsertKeepsSorted | Assets/SteamVR/Scripts/SteamVR_Render.cs:77-95 | inserting into a depth-sorted array keeps it sorted |
| CameraStack.AddInternal | Assets/SteamVR/Scripts/SteamVR_Render.cs:77-95 | the single copying pass builds exactly the insertion |
| CameraStack.WithoutCounts | Assets/SteamVR/Scripts/SteamVR_Render.cs:97-120 | removal drops exactly the occurrences of the camera: the length falls by its count and all other counts stay |
| CameraStack.RemoveInternal | Assets/SteamVR/Scripts/SteamVR_Render.cs:97-120 | an absent camera leaves the array unchanged; otherwise every occurrence is removed and the rest keep their order and counts |
| CameraStack.RemoveUndoesInsert | Assets/SteamVR/Scripts/SteamVR_Render.cs:77-120 | removing a camera that was just inserted, and was not there before, restores the array |
| CameraStack.TopInternal | Assets/SteamVR/Scripts/SteamVR_Render.cs:122-128 | none exactly when the array is empty; otherwise the last camera of the array |
| CameraStack.TopIsDeepest | Assets/SteamVR/Scripts/SteamVR_Render.cs:77-128 | in a depth-sorted array the top camera is one no camera of the array is deeper than |
| CameraStack.NewCameraOnTopIffDeepest | Assets/SteamVR/Scripts/SteamVR_Render.cs:77-128 | in a sorted array, a newly added camera is on top exactly when no camera is deeper than it |
| CameraStack.Add | Assets/SteamVR/Scripts/SteamVR_Render.cs:55-59 | ignored while quitting; otherwise inserts into the instance's array, creating the instance if needed |
| CameraStack.Remove | Assets/SteamVR/Scripts/SteamVR_Render.cs:61-65 | ignored while quitting or with no instance; otherwise removes the camera |
| CameraStack.Top | Assets/SteamVR/Scripts/SteamVR_Render.cs:67-73 | none while quitting; otherwise the instance exists afterwards with its camera array unchanged, and the result is its top camera |
| CameraStack.AddThenRemove | Assets/SteamVR/Scripts/SteamVR_Render.cs:55-65 | adding and then removing a camera that was not present restores the stack |
| GraphOwners.GetInstance | Assets/NodeCanvas/Framework/Runtime/Graphs/GraphOwner.cs:75-104 | none gives none; outside play mode, or for a graph that already is an instance, the graph itself; a cached original gives its instance; otherwise a clone with a fresh identity is created, cached and returned |
| GraphOwners.GetInstanceKeepsInv | Assets/NodeCanvas/Framework/Runtime/Graphs/GraphOwner.cs:75-104 | the cache stays sound: its instances are distinct and allocated, and no instance is the key of another original; a graph may be its own instance |
| GraphOwners.LocalGraphSelfEntry | Assets/NodeCanvas/Framework/Runtime/Graphs/GraphOwner.cs:139-141 | caching a local graph as its own instance, as Awake does, keeps the cache sound, and GetInstance then returns that graph itself and changes nothing |
| GraphOwners.GetInstanceIdempotent | Assets/NodeCanvas/Framework/Runtime/Graphs/GraphOwner.cs:75-104 | asking again for the same original, or for the instance just returned, returns that instance and changes nothing |
| GraphOwners.UpdateReferences | Assets/NodeCanvas/Framework/Runtime/Graphs/GraphOwner.cs:288-293 | the current behaviour, if any, is bound to this owner |
| GraphOwners.SetBehaviour | Assets/NodeCanvas/Framework/Runtime/Graphs/GraphOwner.cs:277-286 | assigning the current graph changes nothing; a different one is stored and bound |
| GraphOwners.StartBehaviour | Assets/NodeCanvas/Framework/Runtime/Graphs/GraphOwner.cs:296-300 | does nothing without a behaviour; with one, the behaviour becomes the graph GetInstance returns for it (its cached instance while playing, itself otherwise), exactly one start of that graph is logged, and nothing but the cache, the allocator, the behaviour, its binding and the log changes |
| GraphOwners.PauseBehaviourCall | Assets/NodeCanvas/Framework/Runtime/Graphs/GraphOwner.cs:310-313 | pauses the behaviour, if any, and changes nothing else |
| GraphOwners.StopBehaviourCall | Assets/NodeCanvas/Framework/Runtime/Graphs/GraphOwner.cs:316-319 | stops the behaviour, if any, and changes nothing else |
| GraphOwners.Start | Assets/NodeCanvas/Framework/Runtime/Graphs/GraphOwner.cs:148-152 | records that Start ran and starts the behaviour only under the enable policy EnableBehaviour |
| GraphOwners.OnEnable | Assets/NodeCanvas/Framework/Runtime/Graphs/GraphOwner.cs:155-158 | starts the behaviour only after Start has run and only under EnableBehaviour |
| GraphOwners.OnDisable | Assets/NodeCanvas/Framework/Runtime/Graphs/GraphOwner.cs:161-171 | nothing while quitting; otherwise stops or pauses the behaviour per the disable policy, and changes only the log |
| GraphOwners.SwitchBehaviour | Assets/NodeCanvas/Framework/Runtime/Graphs/GraphOwner.cs:332-341 | stops the current behaviour, then assigns the new graph and starts the graph GetInstance returns for it: the log gains the stop and then exactly one start, of the new behaviour; the policies and the Start flag are kept and the cache stays sound |
| GraphOwners.SwitchToCurrentRestarts | Assets/NodeCanvas/Framework/Runtime/Graphs/GraphOwner.cs:332-341 | while playing, switching to the current behaviour, already an instance, just logs its stop and then its start |
| GraphOwners.EnableBeforeStartStartsOnce | Assets/NodeCanvas/Framework/Runtime/Graphs/GraphOwner.cs:148-158 | an OnEnable before Start starts nothing, so the pair starts the behaviour exactly once |
| GraphOwners.DoNothingNeverStarts | Assets/NodeCanvas/Framework/Runtime/Graphs/GraphOwner.cs:148-158 | under the enable policy DoNothing, neither Start nor OnEnable logs anything |

## Left out

- Editor GUI, gizmos, undo recording, inspectors and debug logging: these do not affect runtime state. Log messages are not modelled.
- `ActionTask.ExecuteAction` with a callback (ActionTask.cs:68-84): it drives the same `ExecuteAction` from a coroutine. Coroutines are outside the model.
- `Connection` is not part of this model. Its `Reset` is taken to set the connection `Resting` and to reset its target node. The `recursively` flag of `Node.Reset` is therefore dropped.
- `OnExecute`, `OnUpdate`, `OnReset` and a child condition's `CheckCondition` are user code. Each is replaced by an input: a hook function, a `HookCall`, a log entry, or the boolean outcome.
- The reflected `targetMethod.Invoke` of `ImplementedAction_Multiplatform` is replaced by its `Status` result. Parameter evaluation is not modelled.
- `Time.time` (a float) is replaced by an integer clock. Floating-point rounding is not modelled.
- `FSM.EnterState` is reported as the entered node only. The FSM's own state change is outside the model.
- `SteamVR_Render.instance`'s `FindObjectOfType` and game-object creation: a missing instance becomes one with an empty camera array.
- Camera depth is an integer function of the camera identity. Depths are not floats here.
- Rendering, poses, input focus and help text in `SteamVR_Render` are outside the camera stack.
- `GraphOwner.Awake` (GraphOwner.cs:139-145) is not modelled as an operation of its own. For a non-local graph it assigns `GetInstance(graph)` through the setter, which is `GetInstance` followed by `SetBehaviour`. For a local graph it caches the graph as its own instance; `GraphOwners.LocalGraphSelfEntry` states that this entry keeps `OwnerInv` and what `GetInstance` then returns.
- `GraphOwner.OnDestroy` (GraphOwner.cs:174-183) is not modelled. Unless the application is quitting, it stops the behaviour, as `StopBehaviourCall` does, and then destroys every cached instance; object destruction is outside the model.
- `OnValidate`, `Reset`, `SendEvent` and `SendTaskMessage` do not touch the instance cache or the start and stop protocol.
- `Graph.Clone` becomes allocation of a fresh identity.
- `StartBehaviour`'s callback overload is modelled the same as the plain one; the callback itself is not modelled.
- `Graph.StartGraph`, `Pause` and `Stop` become log entries.
- GraphOwners.GetInstance: requires the graph passed in to exist, i.e. its identity is below the allocator `nextId`; `SetBehaviour` and `SwitchBehaviour` require the same of their graph. A graph the program holds always exists, so this only excludes identities no object has yet.
- GraphOwners.StartBehaviour: does not claim the started graph is bound to the owner. Binding is `UpdateReferences`' job in the setter, and it is skipped when the behaviour already is the instance.
- NodeReset.ResetNode: `Node.Reset` returns at once at a node that already rests or is guarded (Node.cs:256-257), so the children of such a node may keep running. Only nodes reachable along non-resting paths are promised to rest (`NodeReset.ResetReachesPendingPaths`); `NodeReset.RestingNodeShieldsItsChildren` gives the instance.
- NodeReset.ResetNode: the order of the `OnReset` calls is stated as "every node after the first is a child of a node reset before it". That siblings are visited in connection order, each subtree before the next sibling (a depth-first pre-order), is not stated.
