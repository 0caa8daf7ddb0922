# Deadlock detection and recovery backend, in Dafny

This project models the C backend of a deadlock detection, recovery and
simulation tool, and proves properties of the model. The pieces are:

- **The resource allocation graph (RAG) store** (`rag.dfy`, module `Rag`).
  - It has 64 process slots and 64 resource slots.
  - A 0/1 request matrix records process → resource requests.
  - A counting assignment matrix records the units a process holds.
  - The `Graph` class updates these in place. Every operation is proved
    against a function on a `RagState` snapshot.
  - The invariant `Inv` includes conservation: for an active resource,
    available plus held equals total. Every operation keeps `Inv`.
- **The three-colour DFS cycle detector** (`cycle_detector.dfy`, module
  `CycleDetector`).
  - The mutually recursive visits run over a `DfsState` object.
  - It has the first-cycle and all-cycles modes.
  - It reports the deadlocked processes and resources in ascending order.
  - Detection is proved to succeed exactly when the graph has a closed
    walk, and the reported first cycle is proved to be one.
- **The wait-for graph** (`wait_for.dfy`, module `WaitFor`).
  - The builder fills a 64×64 array.
  - The iterative, stack-based cycle search over it is proved to find a
    cycle exactly when one exists.
  - A wait-for cycle is proved to be a RAG cycle.
- **The recovery engine** (`recovery.dfy`, module `Recovery`).
  - Victim scoring and termination cost.
  - The terminate-all, terminate-one and iterative strategies.
  - Preemption, rollback, the dispatcher, analysis and recommendation.
- **The simulation state machine** (`simulator.dfy`, module `Simulator`).
  - Running, paused and tick state.
  - The 1024-entry event log.
  - The deterministic scenario builders. These are proved to build the
    intended graph, and that graph is proved to have a cycle, or none.
- **The Banker's algorithm of the standalone avoidance program**
  (`banker.dfy`, module `Banker`).
  - The need table, the safety check, tentative allocation with rollback,
    release, and the detection report.
  - The greedy safety check is proved sound and complete against the
    definition of a safe sequence.
- **The JSON API's request side.**
  - `api_json.dfy` (module `ApiJson`) holds the field readers, with
    round-trip lemmas.
  - `api_commands.dfy` (module `ApiCommands`) holds the command and status
    tables.
  - `api.dfy` (module `Api`) holds request parsing and the argument
    defaults of two commands.
- **Shared helpers.** `sums.dfy` (module `Sums`) has sums and counts over
  sequences. `wrappers.dfy` (module `Wrappers`) has `Option`.

The source's fixed-size arrays of structs become sequences that the
methods reassign. The one exception is the wait-for matrix the caller
passes in, which stays an `array2`.

## Model

| member | source | states |
|---|---|---|
| Rag.Graph.constructor | src/rag.c:15-38 | a fresh graph is empty and satisfies the invariant |
| Rag.Graph.Reset | src/rag.c:46-48 | reset yields the empty graph |
| Rag.EmptyIsValid | src/rag.c:15-38 | the empty graph satisfies the invariant, conservation included |
| Rag.Graph.AddProcess | src/rag.c:59-93 | the lowest inactive slot is taken, or -1 and nothing changes when all 64 are active; the slot becomes an active Running process and the count rises by one |
| Rag.AddProcessPreservesInv | src/rag.c:59-93 | taking an inactive slot keeps the invariant and changes neither matrix |
| Rag.Graph.RemoveProcess | src/rag.c:95-115 | succeeds exactly for an active process; its holdings go back, its rows are cleared and the slot becomes inactive |
| Rag.RemoveProcessPreservesInv | src/rag.c:95-115 | removing a live process keeps the invariant |
| Rag.RemoveProcessEffect | src/rag.c:95-115 | after removal both rows are zero, every other process keeps its rows, and each resource gains back what the process held |
| Rag.Graph.GetProcess | src/rag.c:117-121 | a record is returned exactly for an active process id |
| Rag.Graph.SetProcessState | src/rag.c:123-128 | only an active process's state changes |
| Rag.Graph.AddResource | src/rag.c:134-168 | -1 for a count of 0 or less; otherwise the lowest free slot, with available equal to total equal to the count |
| Rag.AddResourcePreservesInv | src/rag.c:134-168 | adding a resource keeps the invariant, conservation included, and changes neither matrix |
| Rag.Graph.RemoveResource | src/rag.c:170-193 | refused while any process holds a unit; otherwise the resource is deactivated and its request column cleared |
| Rag.RemoveResourcePreservesInv | src/rag.c:170-193 | removal keeps the invariant even though requesters keep their Waiting state |
| Rag.Graph.GetResource | src/rag.c:195-199 | a record is returned exactly for an active resource id, with available at most total |
| Rag.Graph.RequestResource | src/rag.c:205-225 | succeeds exactly for an active process and resource; sets the edge and Waiting, and a repeat changes nothing |
| Rag.RequestEdgePreservesInv | src/rag.c:205-225 | a request keeps the invariant |
| Rag.RequestIdempotent | src/rag.c:213-216 | requesting twice equals requesting once |
| Rag.Graph.CancelRequest | src/rag.c:227-252 | succeeds exactly on an existing edge; clears it and returns the process to Running when no request is left |
| Rag.CancelEdgePreservesInv | src/rag.c:227-252 | a cancel keeps the invariant |
| Rag.RequestThenCancel | src/rag.c:205-252 | cancelling a fresh request restores the request matrix |
| Rag.ScanPositive | src/rag.c:239-249 | the has-requests scan is true exactly when some entry is positive |
| Rag.Graph.AllocateResource | src/rag.c:254-287 | succeeds exactly when both are active and a unit is available; moves one unit to the process and clears its request |
| Rag.AllocateUnitPreservesInv | src/rag.c:254-287 | an allocation keeps the invariant, conservation included |
| Rag.Graph.ReleaseResource | src/rag.c:289-307 | succeeds exactly when the process holds a unit; returns one unit |
| Rag.ReleaseUnitPreservesInv | src/rag.c:289-307 | a release keeps the invariant |
| Rag.AllocateThenRelease | src/rag.c:254-307 | allocating then releasing a unit restores holdings and availability |
| Rag.Graph.ReleaseAll | src/rag.c:309-321 | every held unit goes back, the row becomes zero, and the number freed is the row's sum |
| Rag.ReleaseAllPreservesInv | src/rag.c:309-321 | releasing everything keeps the invariant |
| Rag.ReleaseStepKeepsPartly | src/rag.c:312-318 | one unit of the release loop keeps the partial-release relation and lowers the row sum by one |
| Rag.FullyReleased | src/rag.c:309-321 | once every column is drained, the state is that of releasing everything |
| Rag.Graph.IsRequesting | src/rag.c:327-332 | true only for an active process and resource |
| Rag.Graph.IsHolding | src/rag.c:334-339 | true only for an active pair, and then the resource has units out |
| Rag.PositiveIndicesSpec | src/rag.c:341-378 | the listed ids are exactly the positive entries, in ascending order |
| Rag.CollectPositive | src/rag.c:341-352 | the copy loop writes the first maxSize ids with a positive entry |
| Rag.Graph.HeldResources | src/rag.c:341-352 | the held resource ids in ascending order, cut to the buffer; none for a bad id or size |
| Rag.Graph.RequestedResources | src/rag.c:354-365 | the requested resource ids in ascending order, cut to the buffer |
| Rag.Graph.HoldingProcesses | src/rag.c:367-378 | the holder ids of a resource in ascending order, cut to the buffer |
| Rag.Graph.GetStats | src/rag.c:457-480 | the active counts and both matrix sums; the assignment sum is the units out on loan |
| Rag.AssignmentsAreOnLoan | src/rag.c:470-476 | in a valid graph the assignment-matrix total equals the sum of total minus available over active resources |
| CycleDetector.DfsState.constructor | src/cycle_detector.c:42-49 | every node white, an empty path, no cycle |
| CycleDetector.DfsState.ExtractCycle | src/cycle_detector.c:51-63 | the cycle is the path from the start index to the top, marked valid |
| CycleDetector.DfsState.VisitProcess | src/cycle_detector.c:68-114 | a cycle found is the path from some position to the top, and from an empty path a closed walk of distinct nodes; with no cycle found the path is restored and the process is finished |
| CycleDetector.DfsState.VisitRequests | src/cycle_detector.c:99-105 | the request loop either finds a cycle or finishes every successor |
| CycleDetector.DfsState.VisitResource | src/cycle_detector.c:116-162 | the same as for a process, through the resource's holders |
| CycleDetector.DfsState.VisitHolders | src/cycle_detector.c:147-153 | the holder loop either finds a cycle or finishes every successor |
| CycleDetector.DfsState.MarkAndPush | src/cycle_detector.c:92-96 | an active white node is pushed onto the path; one fewer white node |
| CycleDetector.DfsState.PopAndFinish | src/cycle_detector.c:107-111 | once all its successors are finished, the top is popped and finished itself |
| CycleDetector.DfsState.CloseAt | src/cycle_detector.c:74-83 | reaching a gray node records, as a valid cycle, the path from that node's position on it to the top; when the search started from an empty path this is a closed walk of distinct nodes |
| CycleDetector.DfsState.ClearFound | src/cycle_detector.c:227-234 | between searches of the all-cycles mode, only the found flag and the output's valid flag are reset |
| CycleDetector.CloseWalk | src/cycle_detector.c:51-63 | the path's tail from a node the top points back to is a closed walk |
| CycleDetector.NoCycleWhenAllRanked | src/cycle_detector.c:205-236 | when every start candidate is finished with ranks falling along edges, there is no cycle |
| CycleDetector.StartCandidateOn | src/cycle_detector.c:205-213 | every closed walk passes through an active process with a pending request |
| CycleDetector.SearchCycles | src/cycle_detector.c:205-236 | a cycle is reported exactly when the graph has one; the first reported is a closed walk; at most 32, and one in first-cycle mode |
| CycleDetector.MarkCycleNodes | src/cycle_detector.c:243-252 | a flag is set exactly for the nodes on some reported cycle |
| CycleDetector.Flagged | src/cycle_detector.c:254-263 | the flagged ids, each once, in ascending order |
| CycleDetector.DetectWithAlgorithm | src/cycle_detector.c:189-270 | detection holds exactly when the graph has a cycle (never in Banker mode); the deadlocked sets are exactly the ids on the cycles, ascending; no deadlock leaves the initial result |
| CycleDetector.DetectDeadlock | src/cycle_detector.c:185-187 | first-cycle detection: one closed walk of distinct nodes exactly when the graph has a cycle |
| CycleDetector.DetectAllCycles | src/cycle_detector.c:272-277 | the cycle count is positive exactly when the graph has a cycle, and at most 32 |
| CycleDetector.DfsFromProcess | src/cycle_detector.c:283-292 | a reported cycle is a closed walk; when none is found from a live process, no closed walk passes through it |
| CycleDetector.IsProcessDeadlocked | src/cycle_detector.c:294-311 | true exactly when the process is live and listed by the detection it runs, a detection with every guarantee of detect_deadlock; so only for a process on a closed walk, and never without a cycle |
| CycleDetector.IsResourceInDeadlock | src/cycle_detector.c:313-330 | true exactly when the resource is live and listed by the detection it runs, a detection with every guarantee of detect_deadlock; so only for a resource on a closed walk, and never without a cycle |
| CycleDetector.GetCycleProcesses | src/cycle_detector.c:424-434 | the cycle's process ids in order, cut to the buffer |
| CycleDetector.GetCycleResources | src/cycle_detector.c:436-446 | the cycle's resource ids in order, cut to the buffer |
| CycleDetector.CycleBalanced | src/cycle_detector.c:424-446 | a cycle of the graph has as many process nodes as resource nodes |
| CycleDetector.DeadlockDepth | src/cycle_detector.c:448-451 | never negative, and 0 without a deadlock |
| WaitFor.BuildWaitForGraph | src/cycle_detector.c:336-360 | entry [p1, p2] is 1 exactly when active p1 requests a resource that another process p2 holds |
| WaitFor.FillRow | src/cycle_detector.c:340-358 | the loops for one process fill its row and leave the other rows alone |
| WaitFor.WaitsForIsTwoStepPath | src/cycle_detector.c:336-360 | in a valid graph, p1 waits for p2 exactly when p1 → r → p2 is a path of the graph for some r, with p1 ≠ p2 |
| WaitFor.WaitForCycleIsRagCycle | src/cycle_detector.c:336-360 | a cycle of the wait-for graph gives a cycle of the resource allocation graph |
| WaitFor.ReportedCycleReversed | src/cycle_detector.c:391-400 | the reported cycle, read backwards, is a closed walk of distinct nodes |
| WaitFor.DetectCycleInWaitFor | src/cycle_detector.c:362-418 | a cycle is reported exactly when the wait-for graph has one, and it fits in 64 entries |
| WaitFor.WaitForSearch.Advance | src/cycle_detector.c:380-414 | one stack step closes a cycle, descends or finishes the top, and makes progress |
| WaitFor.WaitForSearch.TraceCycle | src/cycle_detector.c:391-400 | the parent chain from the top back to the gray node is a reported cycle |
| WaitFor.WaitForSearch.FirstOpenSuccessor | src/cycle_detector.c:388-408 | a successor that is not black, or -1 exactly when every successor is black |
| WaitFor.PushKeeps | src/cycle_detector.c:402-407 | pushing a white successor of the gray top keeps the search invariant |
| WaitFor.PopKeeps | src/cycle_detector.c:410-413 | finishing the top keeps the search invariant |
| WaitFor.NoWfCycleWhenAllRanked | src/cycle_detector.c:373-415 | once every node is finished with ranks falling along edges, there is no cycle |
| Recovery.InitRecovery | src/recovery.c:38-54 | not successful, no actions, every counter zero |
| Recovery.DefaultConfig | src/recovery.c:56-65 | lowest-priority termination, no limit, critical threshold 90 |
| Recovery.StrategyCodeRoundTrip | include/recovery.h:23-31 | the strategy enumeration's codes and values map back and forth |
| Recovery.CriteriaOf | include/recovery.h:36-43 | an integer outside the criteria enumeration selects no scoring branch |
| Recovery.VictimIsFirstBest | src/recovery.c:358-425 | the victim is the first listed active process of maximal score, and -1 exactly when none is active |
| Recovery.SelectVictim | src/recovery.c:358-425 | the selection loop returns that victim |
| Recovery.ScoreOf | src/recovery.c:374-415 | the score of each criterion |
| Recovery.HeldUnits | src/recovery.c:382-385 | the held-units loop sums the process's assignment row |
| Recovery.CalculateTerminationCost | src/recovery.c:427-460 | 0 for a bad id or inactive slot; otherwise 10 per priority point, 20 per held unit, 15 per (held resource, requester) pair |
| Recovery.CostBounds | src/recovery.c:449-457 | the cost is at least 10·priority + 20·held, and 15 more when the process requests a resource it holds (it counts itself) |
| Recovery.IsCriticalProcess | src/recovery.c:462-469 | true exactly for an active process at or above the threshold |
| Recovery.ReleaseThenRemove | src/recovery.c:193-198 | releasing before removing changes nothing, since removal releases anyway |
| Recovery.TerminationEffect | src/recovery.c:129-163 | terminate-all removes exactly the listed live processes, each once; others keep their slots and edges; the count drops by the number removed |
| Recovery.TerminateAllProcesses | src/recovery.c:129-163 | the graph after removing each listed live process; one action logged per removal; success when any was removed |
| Recovery.TerminateOneProcess | src/recovery.c:165-204 | the selected victim is removed and logged; fails and changes nothing when there is no victim |
| Recovery.DeadlockHasVictim | src/recovery.c:165-204 | a detected deadlock always offers a victim, so terminate-one succeeds after a detection |
| Recovery.TerminationRound | src/recovery.c:215-249 | one round: no cycle means done; otherwise the victim chosen from this round's detection is removed, logged, counted, and its held units added to those preempted |
| Recovery.RemovalsAreTermination | src/recovery.c:215-249 | removing live processes one round at a time gives the graph terminate-all gives for the same ids, and removes each of them |
| Recovery.RemovalsSpareSurvivors | src/recovery.c:215-249 | after the rounds every victim is gone, none was removed twice, every other process keeps its slot and its request and assignment rows, and the live count is down by the number of victims |
| Recovery.RemovalsSnoc | src/recovery.c:243-244 | one more removal extends the rounds and adds the victim's held units to the units freed |
| Recovery.RoundsSnoc | src/recovery.c:215-244 | one more round, with its detection and victim, extends the rounds |
| Recovery.RecordedSnoc | src/recovery.c:236-244 | a round that removed a victim extends the running result by one log entry, one termination and the victim's held units |
| Recovery.RecordedRound | src/recovery.c:215-244 | one round with its record: unchanged when no cycle is found; otherwise the rounds and the running result grow by the round's victim |
| Recovery.TerminationLoop | src/recovery.c:214-249 | the loop stops resolved only on a graph without a cycle; without a budget it always stops resolved; otherwise it stops at the budget; the record covers every round |
| Recovery.TerminateIterative | src/recovery.c:206-261 | the result is the rounds: in each, the victim is the one selected from that round's detection, and the final graph is the initial one with the victims removed in turn; one log entry, termination and iteration per victim, and the preempted count is the units the victims held; success, the return value and the absence of a cycle coincide; the budget bounds the rounds, and with no budget the loop always ends deadlock-free; each round's result is initialised before its victim's action is copied (see ## Findings) |
| Recovery.UninitialisedRoundCopiesStaleAction | src/recovery.c:228-240 | as written, the round's copied action is whatever its result held first, not the termination |
| Recovery.InitialisedRoundCopiesVictim | src/recovery.c:228-240 | with the round's result initialised, the copied action is the victim's termination |
| Recovery.PreemptListed | src/recovery.c:272-289 | one unit of each listed resource the process still holds is taken back and logged |
| Recovery.ReleaseEachEffect | src/recovery.c:272-289 | each successful preemption takes one unit from the process and touches nothing else |
| Recovery.PreemptProcessResources | src/recovery.c:263-314 | nothing for an inactive process; otherwise the listed units (or all for an empty list) are taken back and the process is Blocked |
| Recovery.PreemptAllEffect | src/recovery.c:290-311 | preempting everything leaves the process live, Blocked, holding nothing, with its requests kept |
| Recovery.RollbackProcess | src/recovery.c:316-352 | an active process gives back all its units, loses all its requests and runs again; otherwise nothing changes |
| Recovery.RollbackEffect | src/recovery.c:316-352 | after a rollback the process holds and requests nothing, and others keep their rows |
| Recovery.RecoverFromDeadlock | src/recovery.c:71-117 | no deadlock is a success with the graph unchanged; an unknown strategy fails unchanged; each strategy's effect on the graph and its answer, gathered as RecoveryOutcome |
| Recovery.RecoverDefault | src/recovery.c:119-123 | the default strategy removes the lowest-priority deadlocked process |
| Recovery.ListedUnitsZero | src/recovery.c:485-492 | the terminate-all estimate of freed units is never negative, and 0 exactly when no listed process holds anything |
| Recovery.AnalyzeRecoveryOption | src/recovery.c:475-524 | the feasibility and estimates of each strategy, 0 for a value outside the enumeration |
| Recovery.RecommendStrategy | src/recovery.c:526-563 | one process: terminate one; up to 5: lowest priority; more than 5: preemption exactly when some listed process holds more than one unit |
| Simulator.Simulation.constructor | src/simulator.c:66-79 | tick 0, stopped, no deadlock, no events, an empty graph |
| Simulator.DefaultSimulationConfig | src/simulator.c:81-93 | the default simulation configuration |
| Simulator.Simulation.Reset | src/simulator.c:95-107 | as initialisation, with the scenario kept |
| Simulator.Simulation.LogEvent | src/simulator.c:119-140 | one event stamped with the current tick is appended while fewer than 1024 are held |
| Simulator.AppendedAllTruncates | src/simulator.c:119-140 | logging events one by one keeps those that fit under 1024, in order |
| Simulator.Simulation.GetEvents | src/simulator.c:149-155 | the first min(count, max) events, none for max ≤ 0 |
| Simulator.Simulation.ClearEvents | src/simulator.c:157-160 | the log becomes empty |
| Simulator.Simulation.Start | src/simulator.c:438-443 | running and not paused |
| Simulator.Simulation.Pause | src/simulator.c:445-448 | paused |
| Simulator.Simulation.Resume | src/simulator.c:450-453 | not paused |
| Simulator.Simulation.Stop | src/simulator.c:455-459 | neither running nor paused |
| Simulator.Simulation.Tick | src/simulator.c:461-499 | nothing unless running and not paused; otherwise the tick rises by one and is logged; detection matches the graph's cycles and, through DetectedAndRecovered, with recovery on the graph and the recovery answer are RecoveryOutcome of that detection under the configured strategy; the stored detection is kept when detection is off and the stored recovery result whenever no recovery runs; the simulation stops at the tick limit |
| Simulator.Simulation.Advance | src/simulator.c:465-490 | a running tick before its limit check: the clock rises by one and the tick is logged; without a cycle the graph and flag are unchanged; with one the first two events are the tick and the detection, and the detection and recovery satisfy DetectedAndRecovered; the stored detection is kept when detection is off and the stored recovery result whenever no recovery runs |
| Simulator.Simulation.DetectAndRecover | src/simulator.c:469-490 | DetectedAndRecovered: the stored detection satisfies DetectionOf and, with recovery on and a cycle, the new graph and lastRecovery.success are RecoveryOutcome of that detection under the configured strategy; a detected cycle is flagged and logged, and the flag clears exactly when recovery succeeds; without a cycle or with recovery off the stored recovery result is kept |
| Simulator.Simulation.RunUntilDeadlock | src/simulator.c:501-518 | at most the budget of ticks; stops once a deadlock is flagged, the simulation stops or the budget is spent |
| Simulator.Simulation.SetupSimpleDeadlock | src/simulator.c:166-197 | two processes each holding one resource and requesting the other's; the graph has a cycle |
| Simulator.Simulation.SetupCircularWait | src/simulator.c:199-235 | nothing for n < 2; otherwise, with n capped at 64, process i holds resource i and requests resource (i + 1) mod n, and the graph has a cycle |
| Simulator.Simulation.SetupDiningPhilosophers | src/simulator.c:237-276 | the same ring for the philosophers and forks |
| Simulator.RingHasCycle | src/simulator.c:199-235 | the ring of n ≥ 2 processes has a cycle |
| Simulator.RingSuccessor | src/simulator.c:220-232 | in the ring, process i's only edge goes to resource (i + 1) mod n, and resource i's only edge to process i |
| Simulator.RingWalkFollows | src/simulator.c:220-232 | a closed walk through process i also passes resource (i + 1) mod n and process (i + 1) mod n |
| Simulator.RingWalkFrom | src/simulator.c:220-232 | a closed walk through process a passes every process from a to n - 1 |
| Simulator.RingWalkReachesZero | src/simulator.c:220-232 | every closed walk in the ring passes processes 0 and n - 1 |
| Simulator.RingWalkInside | src/simulator.c:199-235 | a closed walk in the ring passes only nodes numbered below n |
| Simulator.RingWalkCoversAll | src/simulator.c:199-235 | a closed walk in the ring passes exactly the processes and the resources numbered below n |
| Simulator.IncreasingRange | src/cycle_detector.c:254-258 | an ascending list holding exactly 0..n-1 is 0, 1, ..., n-1 |
| Simulator.RingDetectionListsAll | tests/test_deadlock.c:211-238 | detection on the circular wait of n ≥ 2 processes (the cross hold is the case n = 2) reports a deadlock and lists exactly processes 0..n-1 and resources 0..n-1 in order, so n deadlocked processes |
| Simulator.Simulation.SetupNoDeadlock | src/simulator.c:355-368 | two processes each holding its own resource, no requests, and no cycle |
| Simulator.NoRequestNoCycle | src/simulator.c:355-368 | a graph without request edges has no cycle |
| Simulator.Simulation.SetupMultipleCycles | src/simulator.c:370-398 | two independent cross holds; the graph has a cycle |
| Simulator.FirstCrossHold | src/simulator.c:375-383 | in the two-cross-hold layout, processes 0 and 1 close a cycle |
| Simulator.CrossHoldHasCycle | src/simulator.c:375-395 | two processes each holding what the other requests form a cycle |
| Simulator.Simulation.SetupCustom | src/simulator.c:404-407 | an empty graph for the caller |
| Simulator.Simulation.LoadScenario | src/simulator.c:339-414 | true exactly for the scenarios with a case, changing nothing otherwise; each builds its graph, deadlocked exactly for those flagged so |
| Simulator.AllocateStep | src/rag.c:254-287 | in a scenario layout, allocating a free single-instance resource succeeds and extends the layout |
| Simulator.RequestStep | src/rag.c:205-225 | in a scenario layout, a request succeeds and extends the layout |
| Banker.BankerSystem.CalculateNeed | deadlock.c:211-218 | every in-use need cell becomes maximum minus allocation, and nothing else changes |
| Banker.NeedTableConsistent | deadlock.c:211-218 | the recomputed table is consistent and untouched outside the in-use block |
| Banker.IsSafeState | deadlock.c:220-270 | true exactly when the safety check finishes everybody; then the order is a safe sequence; otherwise some process is left and none left fits the remaining work |
| Banker.ScanPass | deadlock.c:238-261 | one pass finishes each unfinished process whose need fits, in order |
| Banker.NeedFits | deadlock.c:243-248 | the need check stops at the first resource that does not fit |
| Banker.ReleaseInto | deadlock.c:252-254 | the finished process's allocation joins the work vector |
| Banker.SafeSequenceSound | deadlock.c:220-270 | a successful check yields a permutation of the processes in which each one's need fits the available units plus those of its predecessors |
| Banker.UnsafeIsStuck | deadlock.c:263-266 | a failed safety check leaves some process unfinished, and none of them fits the final work |
| Banker.GreedyComplete | deadlock.c:220-270 | with non-negative allocations, the safety check succeeds whenever some safe sequence exists |
| Banker.SafeIffSafeSequenceExists | deadlock.c:220-270 | the safety check succeeds exactly when a safe sequence exists |
| Banker.ScanFromStuck | deadlock.c:235-267 | a pass that finishes nobody met only finished or non-fitting processes |
| Banker.FinishFixedPoint | deadlock.c:434-457 | the detection loop ends with the same finish flags as the safety check |
| Banker.SettleAgreesWithPasses | deadlock.c:434-457 | repeating passes until none finishes anybody agrees with the safety check's passes |
| Banker.ListUnfinished | deadlock.c:459-468 | the unfinished processes in ascending order |
| Banker.DetectDeadlock | deadlock.c:409-472 | 0 exactly when the state is safe; otherwise 1, listing exactly the processes left unfinished, none of which fits |
| Banker.BankerSystem.ClaimCovers | deadlock.c:279-285 | true exactly when the request is within the process's need |
| Banker.BankerSystem.AvailableCovers | deadlock.c:287-293 | true exactly when the request is within what is available |
| Banker.BankerSystem.Allocate | deadlock.c:307-312 | the request moves from available into the process's allocation and out of its need |
| Banker.BankerSystem.RequestResources | deadlock.c:272-333 | granted exactly when within need, within available and the tentative state is safe; then the tentative state is kept, otherwise the state is exactly as before |
| Banker.TentativeConserves | deadlock.c:307-312 | a tentative grant keeps available plus allocated for each resource type |
| Banker.BankerSystem.ReleaseResources | deadlock.c:335-345 | the process's whole allocation row goes to available and becomes zero |
| Banker.ReleaseMovesRow | deadlock.c:335-345 | release zeroes the row, leaves other processes alone and keeps every total |
| ApiJson.SkipWhitespace | src/api.c:77-80 | the position after the whitespace run from the start |
| ApiJson.SkipSpacesSkipsRun | src/api.c:77-80 | exactly the maximal run of whitespace is skipped, stopping at the end |
| ApiJson.FindFirst | src/api.c:86 | the key search finds the first occurrence, and -1 means there is none |
| ApiJson.LocateValue | src/api.c:83-93 | the value's start after the quoted key, whitespace, a colon and whitespace; fails without key or colon |
| ApiJson.ValueStartAfterColon | src/api.c:89-93 | between the key and the value lie exactly one colon and whitespace |
| ApiJson.ValueStartSkipsSpace | src/api.c:93 | the value does not start with whitespace |
| ApiJson.ExtractString | src/api.c:82-108 | fails without the key, the colon or the opening quote; otherwise the unescaped text up to the closing quote, at most size - 1 characters |
| ApiJson.CopyUnescaped | src/api.c:98-105 | the copy loop drops each escaping backslash and stops at a quote, the end or the buffer limit |
| ApiJson.UnescapeEscaped | src/api.c:98-105 | an escaped string followed by a quote or the end reads back as the string, cut to the room |
| ApiJson.StringFieldRoundTrip | src/api.c:82-108 | a field written as `{"key": "<escaped v>"` reads back as v, cut to the buffer |
| ApiJson.ExtractInt | src/api.c:110-129 | fails when the key, the colon or any digit is missing; otherwise the strtol value converted to int |
| ApiJson.ToInt32 | src/api.c:127 | the long to int conversion keeps the value modulo 2^32 in the int range, and any int unchanged |
| ApiJson.DigitRunMaximal | src/api.c:124-125 | the digits read are the maximal run |
| ApiJson.IntFieldRoundTrip | src/api.c:110-129 | a field written as `{"key": <n>` with n in the int range reads back as n |
| ApiJson.ExtractBool | src/api.c:131-153 | only a value starting with `true` or `false` is read; otherwise it fails and keeps the old value |
| ApiJson.BoolFieldRoundTrip | src/api.c:131-153 | a field written as `{"key": true` or `{"key": false` reads back |
| ApiCommands.GetCommand | src/api.c:226-236 | the table scan by name |
| ApiCommands.CommandName | src/api.c:238-245 | the table scan by command, "unknown" when absent |
| ApiCommands.CommandNamesRoundTrip | src/api.c:22-61 | every command maps to its name and back, every table name to its command and back; unknown names give the unknown command and nothing else does |
| ApiCommands.NamesDistinct | src/api.c:22-61 | no name appears twice in the table, and "unknown" is not one of them |
| ApiCommands.TableFollowsEnumeration | src/api.c:22-61 | the table lists each command once, in enumeration order |
| ApiCommands.StatusName | src/api.c:247-252 | the table entry for an in-range status, "unknown" otherwise |
| ApiCommands.StatusNamesDistinct | src/api.c:63-71 | distinct statuses have distinct names, and "unknown" names exactly the out-of-range values |
| Api.ParseRequest | src/api.c:466-497 | fails with the zeroed request and the unknown command when there is no command string; otherwise the command lookup and each optional field, 0 or false when absent |
| Api.CommandRequestParses | src/api.c:466-478 | a request naming a table command is parsed to that command |
| Api.ResourceInstances | src/api.c:580 | the instance count is the request's when positive, else 1 |
| Api.ExecuteAddResource | src/api.c:578-590 | the graph gains a resource with the defaulted count; failure only when every slot is taken |
| Api.ExecuteRecover | src/api.c:715-738 | always success; without a deadlock the reply says so and the graph is unchanged; with one, the new graph and whether the reply reports success are RecoveryOutcome of the detection under the request's strategy and criteria |

## Left out

- Names, descriptions and summary texts are not modelled. That covers
  process and resource names, event and action descriptions, and the
  recovery summary. Their `strncpy`/`snprintf` truncation is not modelled
  either.
- Console output, the `*_to_string` and print helpers, the JSON
  serialisers, and file save and load are not modelled.
- Null-pointer guards are not modelled. Every object argument is a
  non-null reference or a value.
- The simulator's callback singleton is not modelled.
- `rag_destroy` and `rag_copy` are not modelled.
- `simulation_destroy`, `simulation_load_with_config` and
  `simulation_run_complete` are not modelled. Neither are the manual
  `simulation_*` wrappers that forward to graph operations and log an
  event (add, request, allocate, release, detect, recover).
- `setup_random_scenario` and the random scenario case are not modelled:
  they depend on `rand`, `srand` and `time`.
  - Simulator.Simulation.LoadScenario: requires a scenario other than the
    random one.
- The API's stdin/server loop, `api_set_error` and the dispatcher cases
  that only forward to graph or simulator calls are not modelled.
- The standalone program's `main`, `initializeSystem`, display, report and
  save/load are not modelled. Its `finished` field is not modelled: the
  modelled functions never read it.
- Banker.BankerSystem.constructor: the counts must lie within the
  program's 20-process and 10-resource arrays. The program reads them
  from the user without a check.
- Banker.BankerSystem.RequestResources: requires a process id below the
  process count, as does Banker.BankerSystem.ReleaseResources. The C
  functions index their tables with the id unchecked.
- Integer widths are unbounded. The C `int` sums and counters are never
  wrapped: the Banker work vector, termination costs, counts and tick
  counters. The one place the width is modelled is the `long` to `int`
  conversion in `extract_int`.
- The JSON field readers count characters, with one Dafny `char` standing
  for one C byte, and assume no NUL inside the text. A multi-byte UTF-8
  character therefore counts once where the C buffers, the 64-byte key
  pattern and `strstr` count each of its bytes, so a non-ASCII value can
  be cut at a different place than the C cuts it.
- ApiJson.ExtractInt: strtol is modelled as on a 64-bit `long` platform,
  with the value clamped to the `long` range and then converted to `int`.
- CycleDetector.DetectWithAlgorithm: in the all-cycles mode only the
  first recorded cycle is proved to be a closed walk. The later
  searches start with the path and colours the previous search left
  behind, which is how the source behaves, so a later recorded cycle
  need not be a closed walk.
- CycleDetector.DetectAllCycles: states only the count and the first
  cycle, for the same reason.
- CycleDetector.DeadlockDepth: states only that the depth is never
  negative and is 0 without a deadlock. It does not restate that the
  depth is the number of deadlocked processes.
- Simulator.Simulation.RunUntilDeadlock: requires either a tick budget or
  a positive configured tick limit. With neither, the source's loop ends
  only if a deadlock is flagged.
- Simulator.Simulation.Tick: with recovery on, it states the deadlock
  flag and the first two logged events, but not the recovery events
  logged after them (Simulator.Simulation.DetectAndRecover states those).
- Recovery.SelectVictim: requires every listed id to lie in the process
  table, because the source indexes the table with them unchecked.
  Recovery.TerminateOneProcess, Recovery.RecoverFromDeadlock,
  Recovery.RecoverDefault and Recovery.AnalyzeRecoveryOption carry the
  same requirement. Every detection result satisfies it (proved by
  Recovery.DetectionListed).
- Recovery.TerminateIterative: the victim-selection failure branch of
  the loop cannot be taken after a detection (Recovery.DeadlockHasVictim),
  so the model has no such branch.
- Api.ExecuteRecover: when there is a deadlock, does not state the
  recovery result's action list and counters, which the source writes
  into the reply data through a JSON serialiser that is not modelled.
- The wait-for search keeps the caller's matrix as a value rather than
  an array, since it only reads it.
- The DFS colour arrays and path are sequence fields rather than arrays.

## Findings

| source | as written | input that shows it | evidently intended | confidence | as-written member | corrected member |
|---|---|---|---|---|---|---|
| src/recovery.c:228-240 | each round of the iterative recovery passes an uninitialised `single_result` to the terminate-one strategy, then copies its first action | a round whose `single_result` memory already holds one stale action: the copied action is that stale one, not the termination just done | initialise `single_result` each round, so the copied action is the victim's termination | not executed | Recovery.UninitialisedRoundCopiesStaleAction | Recovery.InitialisedRoundCopiesVictim |
