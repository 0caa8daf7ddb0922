// The simulation state machine: running/paused flags and the tick counter,
// the bounded event log, and the deterministic scenario builders, which drive
// the graph object through its public operations.

module Simulator {
  import opened Wrappers
  import opened Sums
  import opened Rag
  import opened CycleDetector
  import opened Recovery

  const MaxEvents := 1024

  datatype Scenario =
    | SimpleDeadlock
    | CircularWait
    | DiningPhilosophers
    | ProducerConsumer
    | ReaderWriter
    | BankerSafe
    | BankerUnsafe
    | NoDeadlock
    | MultipleCycles
    | ComplexDependency
    | RandomScenario
    | Custom

  datatype EventType =
    | ProcessCreate
    | ProcessTerminate
    | ResourceRequest
    | ResourceAllocate
    | ResourceRelease
    | DeadlockDetected
    | RecoveryStarted
    | RecoveryCompleted
    | ClockTick

  /** A logged event; the description text is not modelled. */
  datatype SimulationEvent = SimulationEvent(timestamp: int, eventType: EventType, processId: int, resourceId: int)

  datatype SimulationConfig = SimulationConfig(
    scenario: Scenario,
    numProcesses: int,
    numResources: int,
    autoDetect: bool,
    autoRecover: bool,
    recoveryStrategy: int,
    randomSeed: int,
    maxTicks: int,
    verbose: bool)

  /** simulation_config_init. */
  function DefaultSimulationConfig(): (c: SimulationConfig)
    ensures c.scenario == SimpleDeadlock && c.numProcesses == 4 && c.numResources == 4
    ensures c.autoDetect && !c.autoRecover && StrategyOf(c.recoveryStrategy) == Some(TerminateLowest)
    ensures c.randomSeed == 0 && c.maxTicks == 100 && c.verbose
  {
    SimulationConfig(SimpleDeadlock, 4, 4, true, false, StrategyCode(TerminateLowest), 0, 100, true)
  }

  /** The log after one more event: appended while fewer than 1024 are held. */
  function Appended(events: seq<SimulationEvent>, e: SimulationEvent): (r: seq<SimulationEvent>)
    ensures |events| < MaxEvents ==> r == events + [e]
    ensures |events| >= MaxEvents ==> r == events
  {
    if |events| < MaxEvents then events + [e] else events
  }

  /** Appending keeps the old log as a prefix. */
  lemma AppendedExtends(events: seq<SimulationEvent>, e: SimulationEvent)
    ensures events <= Appended(events, e)
  {
  }

  /** The configuration switches of a tick; an absent configuration turns them all off. */
  predicate AutoDetect(config: Option<SimulationConfig>) { config.Some? && config.value.autoDetect }
  predicate AutoRecover(config: Option<SimulationConfig>) { config.Some? && config.value.autoRecover }
  predicate TickLimitReached(config: Option<SimulationConfig>, tick: int)
  {
    config.Some? && config.value.maxTicks > 0 && tick >= config.value.maxTicks
  }

  /** The recovery configuration a tick uses: the defaults with the simulation's strategy. */
  function TickRecoveryConfig(config: SimulationConfig): (c: RecoveryConfig)
    ensures c.strategy == config.recoveryStrategy && c.selection == LowestPriority
  {
    DefaultConfig().(strategy := config.recoveryStrategy)
  }

  /** The scenarios simulation_load_scenario builds itself. */
  predicate HasBuilder(sc: Scenario)
  {
    sc.SimpleDeadlock? || sc.CircularWait? || sc.DiningPhilosophers? ||
    sc.NoDeadlock? || sc.MultipleCycles? || sc.Custom?
  }

  /** The scenarios whose graph is built deadlocked. */
  predicate BuildsDeadlock(sc: Scenario)
  {
    sc.SimpleDeadlock? || sc.CircularWait? || sc.DiningPhilosophers? || sc.MultipleCycles?
  }

  // ---------------------------------------------------------------------
  // Graph layouts built by the scenarios
  // ---------------------------------------------------------------------

  /** Resource r is held by someone in the assignment set. */
  ghost predicate Taken(held: set<(int, int)>, r: int)
  {
    exists p :: (p, r) in held
  }

  /** Process p has some request in the request set. */
  ghost predicate Asks(wanted: set<(int, int)>, p: int)
  {
    exists r :: (p, r) in wanted
  }

  /** The graph built by a scenario so far: processes 0..np-1 of priority 50,
      single-instance resources 0..nr-1, one unit held for each pair of `held`,
      one request edge for each pair of `wanted`, and every process waiting
      exactly when it has a request. */
  ghost predicate Layout(s: RagState, np: int, nr: int, held: set<(int, int)>, wanted: set<(int, int)>)
  {
    Shaped(s) && 0 <= np <= MaxProcesses && 0 <= nr <= MaxResources &&
    s.processCount == np && s.resourceCount == nr &&
    (forall p, r :: (p, r) in held ==> 0 <= p < np && 0 <= r < nr) &&
    (forall p, r :: (p, r) in wanted ==> 0 <= p < np && 0 <= r < nr) &&
    (forall p, q, r :: (p, r) in held && (q, r) in held ==> p == q) &&
    (forall p :: 0 <= p < MaxProcesses ==> s.processes[p].active == (p < np)) &&
    (forall p :: 0 <= p < np ==>
       s.processes[p] == Process(p, 50, if Asks(wanted, p) then Waiting else Running, true)) &&
    (forall r :: 0 <= r < MaxResources ==> s.resources[r].active == (r < nr)) &&
    (forall r :: 0 <= r < nr ==> s.resources[r] == Resource(r, 1, if Taken(held, r) then 0 else 1, true)) &&
    (forall p, r :: 0 <= p < MaxProcesses && 0 <= r < MaxResources ==>
       s.assignment[p][r] == (if (p, r) in held then 1 else 0) &&
       s.request[p][r] == (if (p, r) in wanted then 1 else 0))
  }

  lemma EmptyLayout()
    ensures Layout(Empty(), 0, 0, {}, {})
  {
  }

  lemma AddProcessStep(s: RagState, np: int, nr: int, held: set<(int, int)>, wanted: set<(int, int)>)
    requires Layout(s, np, nr, held, wanted) && np < MaxProcesses
    ensures FirstIndex(s.processes, ProcessInactive, 0) == np
    ensures Layout(AddProcessAt(s, np, 50), np + 1, nr, held, wanted)
  {
    assert !s.processes[np].active;
    var t := AddProcessAt(s, np, 50);
    forall p | 0 <= p < np + 1
      ensures t.processes[p] == Process(p, 50, if Asks(wanted, p) then Waiting else Running, true)
    {
      if p == np {
        assert !Asks(wanted, p);
      }
    }
  }

  lemma AddResourceStep(s: RagState, np: int, nr: int, held: set<(int, int)>, wanted: set<(int, int)>)
    requires Layout(s, np, nr, held, wanted) && nr < MaxResources
    ensures FirstIndex(s.resources, ResourceInactive, 0) == nr
    ensures Layout(AddResourceAt(s, nr, 1), np, nr + 1, held, wanted)
  {
    assert !s.resources[nr].active;
    var t := AddResourceAt(s, nr, 1);
    forall r | 0 <= r < nr + 1
      ensures t.resources[r] == Resource(r, 1, if Taken(held, r) then 0 else 1, true)
    {
      if r == nr {
        assert !Taken(held, r);
      }
    }
  }

  lemma AllocateStep(s: RagState, np: int, nr: int, held: set<(int, int)>, wanted: set<(int, int)>, p: int, r: int)
    requires Layout(s, np, nr, held, wanted) && 0 <= p < np && 0 <= r < nr
    requires !Taken(held, r) && (p, r) !in wanted
    ensures CanAllocate(s, p, r)
    ensures Layout(AllocateUnit(s, p, r), np, nr, held + {(p, r)}, wanted)
  {
    var t := AllocateUnit(s, p, r);
    var held' := held + {(p, r)};
    assert s.request[p][r := 0] == s.request[p];
    assert SetCell(s.request, p, r, 0) == s.request;
    if !HasPositive(s.request[p]) {
      assert !Asks(wanted, p);
    } else {
      assert Asks(wanted, p) by {
        var q :| 0 <= q < |s.request[p]| && s.request[p][q] > 0;
        assert (p, q) in wanted;
      }
    }
    forall q | 0 <= q < nr
      ensures t.resources[q] == Resource(q, 1, if Taken(held', q) then 0 else 1, true)
    {
      if q == r {
        assert Taken(held', q);
      } else {
        assert Taken(held', q) == Taken(held, q);
      }
    }
  }

  lemma RequestStep(s: RagState, np: int, nr: int, held: set<(int, int)>, wanted: set<(int, int)>, p: int, r: int)
    requires Layout(s, np, nr, held, wanted) && 0 <= p < np && 0 <= r < nr
    requires (p, r) !in held
    ensures IsLiveProcess(s, p) && IsLiveResource(s, r)
    ensures Layout(RequestEdge(s, p, r), np, nr, held, wanted + {(p, r)})
  {
    var t := RequestEdge(s, p, r);
    var wanted' := wanted + {(p, r)};
    assert Asks(wanted', p);
    forall q | 0 <= q < np
      ensures t.processes[q] == Process(q, 50, if Asks(wanted', q) then Waiting else Running, true)
    {
      if q != p {
        assert Asks(wanted', q) == Asks(wanted, q);
      } else if s.request[p][r] > 0 {
        assert Asks(wanted, p);
      }
    }
  }

  /** (i + 1) mod n, the next position round a ring of n. */
  function NextInRing(i: int, n: int): (j: int)
    requires 0 <= i < n
    ensures j == if i + 1 < n then i + 1 else 0
  {
    (i + 1) % n
  }

  /** Processes 0..k-1 each hold their own resource. */
  ghost function OwnHeld(k: int): set<(int, int)>
  {
    set i | 0 <= i < k :: (i, i)
  }

  /** Processes 0..k-1 each request the next resource round a ring of n. */
  ghost function NextWanted(k: int, n: int): set<(int, int)>
    requires k <= n
  {
    set i | 0 <= i < k :: (i, NextInRing(i, n))
  }

  /** The partner of process i in a cross hold: processes pair off 0-1, 2-3, ... */
  function Partner(i: int): int
  {
    if i % 2 == 0 then i + 1 else i - 1
  }

  /** Processes 0..k-1 each request their partner's resource. */
  ghost function CrossWanted(k: int): set<(int, int)>
  {
    set i | 0 <= i < k :: (i, Partner(i))
  }

  lemma OwnHeldStep(k: int)
    requires 0 <= k
    ensures OwnHeld(k) + {(k, k), (k + 1, k + 1)} == OwnHeld(k + 2)
  {
    assert (k, k) in OwnHeld(k + 2) && (k + 1, k + 1) in OwnHeld(k + 2);
  }

  lemma CrossWantedStep(k: int)
    requires 0 <= k && k % 2 == 0
    ensures CrossWanted(k) + {(k, k + 1), (k + 1, k)} == CrossWanted(k + 2)
  {
    assert Partner(k) == k + 1 && Partner(k + 1) == k;
    assert (k, k + 1) in CrossWanted(k + 2) && (k + 1, k) in CrossWanted(k + 2);
  }

  /** With two processes, the ring and the cross hold are the same graph. */
  lemma RingOfTwo()
    ensures NextWanted(2, 2) == CrossWanted(2) && OwnHeld(0) == {} && CrossWanted(0) == {}
  {
    assert NextInRing(0, 2) == Partner(0) && NextInRing(1, 2) == Partner(1);
  }

  /** Two cross holds: processes 0 and 1 each hold their own resource and
      want the other's, which closes a cycle. */
  lemma FirstCrossHold(s: RagState)
    requires Layout(s, 4, 4, OwnHeld(4), CrossWanted(4))
    ensures HasCycle(s)
  {
    assert (0, 0) in OwnHeld(4) && (1, 1) in OwnHeld(4);
    assert Partner(0) == 1 && Partner(1) == 0;
    assert (0, 1) in CrossWanted(4) && (1, 0) in CrossWanted(4);
    CrossHoldHasCycle(s, 4, 4, OwnHeld(4), CrossWanted(4), 0, 1, 0, 1);
  }

  /** The circular wait on n processes: process i holds resource i and requests
      resource (i + 1) mod n. */
  ghost predicate RingGraph(s: RagState, n: int)
    requires 0 <= n
  {
    Layout(s, n, n, OwnHeld(n), NextWanted(n, n))
  }

  /** In a laid-out graph each wanted pair is a request edge and each held
      pair an assignment edge. */
  lemma LayoutEdges(s: RagState, np: int, nr: int, held: set<(int, int)>, wanted: set<(int, int)>, p: int, r: int)
    requires Layout(s, np, nr, held, wanted)
    ensures (p, r) in wanted ==> Edge(s, CycleNode(p, ProcessNode), CycleNode(r, ResourceNode))
    ensures (p, r) in held ==> Edge(s, CycleNode(r, ResourceNode), CycleNode(p, ProcessNode))
  {
  }

  /** Every closed walk in the ring of n passes through a process, and the ring
      is a cycle: each process waits for the next one round it. */
  lemma {:induction false} RingHasCycle(s: RagState, n: int)
    requires 2 <= n <= MaxProcesses && RingGraph(s, n)
    ensures HasCycle(s)
  {
    var c := seq(2 * n, k requires 0 <= k < 2 * n =>
      if k % 2 == 0 then CycleNode(k / 2, ProcessNode) else CycleNode(NextInRing(k / 2, n), ResourceNode));
    forall i, j | 0 <= i && j == i + 1 && j < |c|
      ensures Edge(s, c[i], c[j])
    {
      var h := i / 2;
      if i % 2 == 0 {
        assert (h, NextInRing(h, n)) in NextWanted(n, n);
        LayoutEdges(s, n, n, OwnHeld(n), NextWanted(n, n), h, NextInRing(h, n));
      } else {
        assert j / 2 == h + 1 && NextInRing(h, n) == h + 1;
        assert (h + 1, h + 1) in OwnHeld(n);
        LayoutEdges(s, n, n, OwnHeld(n), NextWanted(n, n), h + 1, h + 1);
      }
    }
    assert (0, 0) in OwnHeld(n);
    LayoutEdges(s, n, n, OwnHeld(n), NextWanted(n, n), 0, 0);
    assert c[|c| - 1] == CycleNode(0, ResourceNode);
    assert ClosedWalk(s, c);
  }

  /** In the ring of n every edge goes one way: process i only requests
      resource (i + 1) mod n, and resource i is only held by process i. */
  lemma RingSuccessor(s: RagState, n: int, u: CycleNode, v: CycleNode)
    requires 2 <= n <= MaxProcesses && RingGraph(s, n) && Edge(s, u, v)
    ensures 0 <= u.id < n && 0 <= v.id < n
    ensures u.kind == ProcessNode ==> v == CycleNode(NextInRing(u.id, n), ResourceNode)
    ensures u.kind == ResourceNode ==> v == CycleNode(u.id, ProcessNode)
  {
    if u.kind == ProcessNode {
      assert (u.id, v.id) in NextWanted(n, n);
    } else {
      assert (v.id, u.id) in OwnHeld(n);
    }
  }

  /** Round a closed walk, each node has an edge to the one after it. */
  lemma ClosedWalkStep(s: RagState, c: seq<CycleNode>, k: int)
    requires Shaped(s) && ClosedWalk(s, c) && 0 <= k < |c|
    ensures Edge(s, c[k], c[NextInRing(k, |c|)])
  {
    if k + 1 < |c| {
      var j := k + 1;
      assert Edge(s, c[k], c[j]);
    }
  }

  /** A closed walk in the ring that passes process i goes on through resource
      (i + 1) mod n to the process of the same number. */
  lemma RingWalkFollows(s: RagState, n: int, c: seq<CycleNode>, i: int)
    requires 2 <= n <= MaxProcesses && RingGraph(s, n) && ClosedWalk(s, c)
    requires CycleNode(i, ProcessNode) in c
    ensures 0 <= i < n
    ensures CycleNode(NextInRing(i, n), ResourceNode) in c && CycleNode(NextInRing(i, n), ProcessNode) in c
  {
    var k :| 0 <= k < |c| && c[k] == CycleNode(i, ProcessNode);
    var k1 := NextInRing(k, |c|);
    ClosedWalkStep(s, c, k);
    RingSuccessor(s, n, c[k], c[k1]);
    var k2 := NextInRing(k1, |c|);
    ClosedWalkStep(s, c, k1);
    RingSuccessor(s, n, c[k1], c[k2]);
  }

  /** Following the ring from process a reaches every process up to n - 1. */
  lemma {:induction false} RingWalkFrom(s: RagState, n: int, c: seq<CycleNode>, a: int, i: int)
    requires 2 <= n <= MaxProcesses && RingGraph(s, n) && ClosedWalk(s, c)
    requires CycleNode(a, ProcessNode) in c && a <= i < n
    ensures CycleNode(i, ProcessNode) in c
    decreases i - a
  {
    if a < i {
      RingWalkFrom(s, n, c, a, i - 1);
      RingWalkFollows(s, n, c, i - 1);
    }
  }

  /** Every closed walk in the ring of n passes every process and every
      resource below n, and nothing else. */
  lemma RingWalkCoversAll(s: RagState, n: int, c: seq<CycleNode>)
    requires 2 <= n <= MaxProcesses && RingGraph(s, n) && ClosedWalk(s, c)
    ensures forall i :: CycleNode(i, ProcessNode) in c <==> 0 <= i < n
    ensures forall i :: CycleNode(i, ResourceNode) in c <==> 0 <= i < n
  {
    RingWalkReachesZero(s, n, c);
    forall i | 0 <= i < n
      ensures CycleNode(i, ProcessNode) in c && CycleNode(i, ResourceNode) in c
    {
      if i > 0 {
        RingWalkFrom(s, n, c, 0, i - 1);
        RingWalkFollows(s, n, c, i - 1);
      } else {
        RingWalkFollows(s, n, c, n - 1);
      }
    }
    RingWalkInside(s, n, c);
  }

  /** Every closed walk in the ring passes process 0 and process n - 1. */
  lemma RingWalkReachesZero(s: RagState, n: int, c: seq<CycleNode>)
    requires 2 <= n <= MaxProcesses && RingGraph(s, n) && ClosedWalk(s, c)
    ensures CycleNode(0, ProcessNode) in c && CycleNode(n - 1, ProcessNode) in c
  {
    var a := c[0].id;
    if c[0].kind == ResourceNode {
      ClosedWalkStep(s, c, 0);
      RingSuccessor(s, n, c[0], c[NextInRing(0, |c|)]);
    }
    assert CycleNode(a, ProcessNode) in c;
    RingWalkFollows(s, n, c, a);
    RingWalkFrom(s, n, c, a, n - 1);
    RingWalkFollows(s, n, c, n - 1);
  }

  /** A closed walk in the ring of n only passes nodes numbered below n. */
  lemma RingWalkInside(s: RagState, n: int, c: seq<CycleNode>)
    requires 2 <= n <= MaxProcesses && RingGraph(s, n) && ClosedWalk(s, c)
    ensures forall x :: x in c ==> 0 <= x.id < n
  {
    forall x | x in c
      ensures 0 <= x.id < n
    {
      var k :| 0 <= k < |c| && c[k] == x;
      ClosedWalkStep(s, c, k);
      RingSuccessor(s, n, c[k], c[NextInRing(k, |c|)]);
    }
  }

  /** A strictly increasing sequence holding exactly 0..n-1 is 0, 1, ..., n-1. */
  lemma {:induction false} IncreasingRange(ids: seq<int>, n: int)
    requires 0 <= n && StrictlyIncreasing(ids)
    requires forall x :: x in ids <==> 0 <= x < n
    ensures ids == seq(n, i => i)
  {
    if |ids| == 0 {
      assert n > 0 ==> 0 in ids;
    } else {
      var last := |ids| - 1;
      assert ids[last] in ids && n - 1 in ids;
      assert ids[last] == n - 1;
      var init := ids[..last];
      forall x | x in init
        ensures 0 <= x < n - 1
      {
        var k :| 0 <= k < last && init[k] == x;
        assert ids[k] in ids && ids[k] < ids[last];
      }
      forall x | 0 <= x < n - 1
        ensures x in init
      {
        assert x in ids;
        var k :| 0 <= k < |ids| && ids[k] == x;
        assert init[k] == x;
      }
      IncreasingRange(init, n - 1);
      assert ids == init + [n - 1];
    }
  }

  /** On the circular wait of n processes, detect_deadlock reports every
      process and every resource below n, in order: n deadlocked processes. */
  lemma RingDetectionListsAll(s: RagState, n: int, d: DeadlockResult)
    requires 2 <= n <= MaxProcesses && RingGraph(s, n) && DetectionOf(s, d)
    ensures d.deadlockDetected
    ensures d.deadlockedProcesses == seq(n, i => i) && d.deadlockedResources == seq(n, i => i)
    ensures |d.deadlockedProcesses| == n
  {
    RingHasCycle(s, n);
    var c := d.cycles[0].nodes;
    RingWalkCoversAll(s, n, c);
    forall x
      ensures x in NodesOf(d.cycles) <==> x in c
    {
      if x in NodesOf(d.cycles) {
        var k, y :| 0 <= k < |d.cycles| && y in d.cycles[k].nodes && y == x;
      }
    }
    IncreasingRange(d.deadlockedProcesses, n);
    IncreasingRange(d.deadlockedResources, n);
  }

  /** A graph with no request edge has no cycle: every closed walk leaves some
      process along a request. */
  lemma NoRequestNoCycle(s: RagState)
    requires Shaped(s)
    requires forall p, r :: 0 <= p < MaxProcesses && 0 <= r < MaxResources ==> s.request[p][r] <= 0
    ensures !HasCycle(s)
  {
    forall c: seq<CycleNode> | |c| >= 1
      ensures !ClosedWalk(s, c)
    {
      // A closed walk alternates kinds, so it leaves some process, and only a
      // request edge leaves a process.
      if c[0].kind == ProcessNode {
        assert !Edge(s, c[0], if |c| > 1 then c[1] else c[0]);
      } else {
        assert !Edge(s, c[|c| - 1], c[0]);
      }
    }
  }

  /** Two processes that each hold what the other requests form a cycle. */
  lemma CrossHoldHasCycle(s: RagState, np: int, nr: int, held: set<(int, int)>, wanted: set<(int, int)>,
                          p: int, q: int, r: int, t: int)
    requires Layout(s, np, nr, held, wanted)
    requires (p, r) in held && (q, t) in held && (p, t) in wanted && (q, r) in wanted
    ensures HasCycle(s)
  {
    var c := [CycleNode(p, ProcessNode), CycleNode(t, ResourceNode), CycleNode(q, ProcessNode), CycleNode(r, ResourceNode)];
    assert ClosedWalk(s, c);
  }

  // ---------------------------------------------------------------------
  // Graph operations issued by the scenario builders, one layout step each
  // ---------------------------------------------------------------------

  method AddProcessTo(graph: Graph, ghost np: int, ghost nr: int, ghost held: set<(int, int)>, ghost wanted: set<(int, int)>)
    returns (p: int)
    requires graph.Valid() && Layout(graph.State(), np, nr, held, wanted) && np < MaxProcesses
    modifies graph
    ensures graph.Valid() && p == np && Layout(graph.State(), np + 1, nr, held, wanted)
  {
    AddProcessStep(graph.State(), np, nr, held, wanted);
    p := graph.AddProcess(50);
  }

  method AddResourceTo(graph: Graph, ghost np: int, ghost nr: int, ghost held: set<(int, int)>, ghost wanted: set<(int, int)>)
    returns (r: int)
    requires graph.Valid() && Layout(graph.State(), np, nr, held, wanted) && nr < MaxResources
    modifies graph
    ensures graph.Valid() && r == nr && Layout(graph.State(), np, nr + 1, held, wanted)
  {
    AddResourceStep(graph.State(), np, nr, held, wanted);
    r := graph.AddResource(1);
  }

  method AllocateIn(graph: Graph, ghost np: int, ghost nr: int, ghost held: set<(int, int)>, ghost wanted: set<(int, int)>,
                    p: int, r: int)
    requires graph.Valid() && Layout(graph.State(), np, nr, held, wanted) && 0 <= p < np && 0 <= r < nr
    requires !Taken(held, r) && (p, r) !in wanted
    modifies graph
    ensures graph.Valid() && Layout(graph.State(), np, nr, held + {(p, r)}, wanted)
  {
    AllocateStep(graph.State(), np, nr, held, wanted, p, r);
    var _ := graph.AllocateResource(p, r);
  }

  method RequestIn(graph: Graph, ghost np: int, ghost nr: int, ghost held: set<(int, int)>, ghost wanted: set<(int, int)>,
                   p: int, r: int)
    requires graph.Valid() && Layout(graph.State(), np, nr, held, wanted) && 0 <= p < np && 0 <= r < nr
    requires (p, r) !in held
    modifies graph
    ensures graph.Valid() && Layout(graph.State(), np, nr, held, wanted + {(p, r)})
  {
    RequestStep(graph.State(), np, nr, held, wanted, p, r);
    var _ := graph.RequestResource(p, r);
  }

  /** Two processes then two single-instance resources, in the next free slots. */
  method AddPair(graph: Graph, ghost np: int, ghost nr: int, ghost held: set<(int, int)>, ghost wanted: set<(int, int)>)
    returns (p1: int, p2: int, r1: int, r2: int)
    requires graph.Valid() && Layout(graph.State(), np, nr, held, wanted)
    requires np + 2 <= MaxProcesses && nr + 2 <= MaxResources
    modifies graph
    ensures graph.Valid() && p1 == np && p2 == np + 1 && r1 == nr && r2 == nr + 1
    ensures Layout(graph.State(), np + 2, nr + 2, held, wanted)
  {
    p1 := AddProcessTo(graph, np, nr, held, wanted);
    p2 := AddProcessTo(graph, np + 1, nr, held, wanted);
    r1 := AddResourceTo(graph, np + 2, nr, held, wanted);
    r2 := AddResourceTo(graph, np + 2, nr + 1, held, wanted);
  }

  /** p1 takes r1 and p2 takes r2. */
  method HoldPair(graph: Graph, ghost np: int, ghost nr: int, ghost held: set<(int, int)>, ghost wanted: set<(int, int)>,
                  p1: int, p2: int, r1: int, r2: int)
    requires graph.Valid() && Layout(graph.State(), np, nr, held, wanted)
    requires 0 <= p1 < np && 0 <= p2 < np && 0 <= r1 < nr && 0 <= r2 < nr && r1 != r2
    requires !Taken(held, r1) && !Taken(held, r2) && (p1, r1) !in wanted && (p2, r2) !in wanted
    modifies graph
    ensures graph.Valid() && Layout(graph.State(), np, nr, held + {(p1, r1), (p2, r2)}, wanted)
  {
    AllocateIn(graph, np, nr, held, wanted, p1, r1);
    assert !Taken(held + {(p1, r1)}, r2);
    AllocateIn(graph, np, nr, held + {(p1, r1)}, wanted, p2, r2);
    assert held + {(p1, r1)} + {(p2, r2)} == held + {(p1, r1), (p2, r2)};
  }

  /** p1 requests r2 and p2 requests r1. */
  method CrossRequest(graph: Graph, ghost np: int, ghost nr: int, ghost held: set<(int, int)>, ghost wanted: set<(int, int)>,
                      p1: int, p2: int, r1: int, r2: int)
    requires graph.Valid() && Layout(graph.State(), np, nr, held, wanted)
    requires 0 <= p1 < np && 0 <= p2 < np && 0 <= r1 < nr && 0 <= r2 < nr
    requires (p1, r2) !in held && (p2, r1) !in held
    modifies graph
    ensures graph.Valid() && Layout(graph.State(), np, nr, held, wanted + {(p1, r2), (p2, r1)})
  {
    RequestIn(graph, np, nr, held, wanted, p1, r2);
    RequestIn(graph, np, nr, held, wanted + {(p1, r2)}, p2, r1);
    assert wanted + {(p1, r2)} + {(p2, r1)} == wanted + {(p1, r2), (p2, r1)};
  }

  /** Two fresh processes and resources, each process holding its own and
      requesting its partner's. */
  method CrossHold(graph: Graph, ghost n: int) returns (p1: int, p2: int, r1: int, r2: int)
    requires graph.Valid() && Layout(graph.State(), n, n, OwnHeld(n), CrossWanted(n))
    requires n % 2 == 0 && n + 2 <= MaxProcesses
    modifies graph
    ensures graph.Valid() && p1 == r1 == n && p2 == r2 == n + 1
    ensures Layout(graph.State(), n + 2, n + 2, OwnHeld(n + 2), CrossWanted(n + 2))
  {
    p1, p2, r1, r2 := AddPair(graph, n, n, OwnHeld(n), CrossWanted(n));
    assert !Taken(OwnHeld(n), n) && !Taken(OwnHeld(n), n + 1);
    HoldPair(graph, n + 2, n + 2, OwnHeld(n), CrossWanted(n), p1, p2, r1, r2);
    OwnHeldStep(n);
    CrossRequest(graph, n + 2, n + 2, OwnHeld(n + 2), CrossWanted(n), p1, p2, r1, r2);
    CrossWantedStep(n);
  }

  /** One more ring position: process i and resource i. */
  method AddRingNode(graph: Graph, i: int)
    returns (p: int)
    requires graph.Valid() && Layout(graph.State(), i, i, {}, {}) && i < MaxProcesses
    modifies graph
    ensures graph.Valid() && p == i && Layout(graph.State(), i + 1, i + 1, {}, {})
  {
    p := AddProcessTo(graph, i, i, {}, {});
    var _ := AddResourceTo(graph, i + 1, i, {}, {});
  }

  /** Process i of the ring takes resource i and requests the next one. */
  method LinkRingNode(graph: Graph, n: int, i: int)
    requires 2 <= n <= MaxProcesses && 0 <= i < n
    requires graph.Valid() && Layout(graph.State(), n, n, OwnHeld(i), NextWanted(i, n))
    modifies graph
    ensures graph.Valid() && Layout(graph.State(), n, n, OwnHeld(i + 1), NextWanted(i + 1, n))
  {
    var next := NextInRing(i, n);
    assert !Taken(OwnHeld(i), i);
    assert (i, i) !in NextWanted(i, n);
    AllocateIn(graph, n, n, OwnHeld(i), NextWanted(i, n), i, i);
    assert OwnHeld(i) + {(i, i)} == OwnHeld(i + 1);
    assert (i, next) !in OwnHeld(i + 1);
    RequestIn(graph, n, n, OwnHeld(i + 1), NextWanted(i, n), i, next);
    assert NextWanted(i, n) + {(i, next)} == NextWanted(i + 1, n);
  }

  /** The events the ring builders log: one creation per process, then per
      process its allocation and its request, all at tick 0. */
  function RingEvents(n: int): (evs: seq<SimulationEvent>)
    requires 0 <= n
    ensures |evs| == 3 * n && forall k :: 0 <= k < |evs| ==> evs[k].timestamp == 0
  {
    seq(3 * n, k requires 0 <= k < 3 * n =>
      if k < n then SimulationEvent(0, ProcessCreate, k, -1)
      else if (k - n) % 2 == 0 then SimulationEvent(0, ResourceAllocate, (k - n) / 2, (k - n) / 2)
      else SimulationEvent(0, ResourceRequest, (k - n) / 2, NextInRing((k - n) / 2, n)))
  }

  /** The events the simple-deadlock builder logs, at tick 0: both creations,
      both allocations, then both requests. */
  function SimpleDeadlockEvents(): (evs: seq<SimulationEvent>)
    ensures |evs| == 6 && forall k :: 0 <= k < |evs| ==> evs[k].timestamp == 0
  {
    [SimulationEvent(0, ProcessCreate, 0, -1), SimulationEvent(0, ProcessCreate, 1, -1),
     SimulationEvent(0, ResourceAllocate, 0, 0), SimulationEvent(0, ResourceAllocate, 1, 1),
     SimulationEvent(0, ResourceRequest, 0, 1), SimulationEvent(0, ResourceRequest, 1, 0)]
  }

  /** The log after appending each event in turn. */
  function AppendedAll(events: seq<SimulationEvent>, news: seq<SimulationEvent>): seq<SimulationEvent>
    decreases |news|
  {
    if |news| == 0 then events else AppendedAll(Appended(events, news[0]), news[1..])
  }

  /** Appending events one at a time keeps those that fit under the cap, in
      order, and drops the rest. */
  lemma {:induction false} AppendedAllTruncates(events: seq<SimulationEvent>, news: seq<SimulationEvent>)
    requires |events| <= MaxEvents
    ensures AppendedAll(events, news) == events + news[..Min(|news|, MaxEvents - |events|)]
    decreases |news|
  {
    if |news| > 0 {
      var next := Appended(events, news[0]);
      AppendedAllTruncates(next, news[1..]);
      if |events| < MaxEvents {
        assert next + news[1..][..Min(|news| - 1, MaxEvents - |next|)] ==
               events + news[..Min(|news|, MaxEvents - |events|)];
      }
    }
  }

  // ---------------------------------------------------------------------
  // The simulation state
  // ---------------------------------------------------------------------

  class Simulation {
    const graph: Graph
    var scenario: Scenario
    var currentTick: int
    var running: bool
    var paused: bool
    var deadlockOccurred: bool
    var events: seq<SimulationEvent>
    var lastDetection: DeadlockResult
    var lastRecovery: RecoveryResult

    ghost predicate Valid()
      reads this, graph
    {
      graph.Valid() && |events| <= MaxEvents
    }

    /** simulation_init: an empty graph, tick 0, stopped, no deadlock, no events. */
    constructor()
      ensures Valid() && fresh(graph)
      ensures graph.State() == Empty() && scenario == Custom
      ensures currentTick == 0 && !running && !paused && !deadlockOccurred && events == []
      ensures lastDetection == InitResult() && lastRecovery == InitRecovery()
    {
      graph := new Graph();
      scenario := Custom;
      currentTick := 0;
      running, paused, deadlockOccurred := false, false, false;
      events := [];
      lastDetection := InitResult();
      lastRecovery := InitRecovery();
    }

    /** simulation_reset: as initialisation, but the scenario is kept. */
    method Reset()
      requires Valid()
      modifies this, graph
      ensures Valid() && graph.State() == Empty() && scenario == old(scenario)
      ensures currentTick == 0 && !running && !paused && !deadlockOccurred && events == []
      ensures lastDetection == InitResult() && lastRecovery == InitRecovery()
    {
      graph.Reset();
      currentTick := 0;
      running, paused, deadlockOccurred := false, false, false;
      events := [];
      lastDetection := InitResult();
      lastRecovery := InitRecovery();
    }

    /** simulation_log_event: stamped with the current tick; dropped once 1024 are held. */
    method LogEvent(eventType: EventType, p: int, r: int)
      requires Valid()
      modifies this`events
      ensures Valid()
      ensures events == Appended(old(events), SimulationEvent(currentTick, eventType, p, r))
    {
      if |events| >= MaxEvents {
        return;
      }
      events := events + [SimulationEvent(currentTick, eventType, p, r)];
    }

    /** simulation_get_events: the first min(count, maxEvents) events, none for maxEvents <= 0. */
    function GetEvents(maxEvents: int): (evs: seq<SimulationEvent>)
      reads this
      ensures maxEvents <= 0 ==> evs == []
      ensures maxEvents > 0 ==> |evs| == Min(|events|, maxEvents)
      ensures evs <= events
    {
      if maxEvents <= 0 then [] else if |events| < maxEvents then events else events[..maxEvents]
    }

    method ClearEvents()
      modifies this`events
      ensures events == []
    {
      events := [];
    }

    method Start() returns (ok: bool)
      modifies this`running, this`paused
      ensures ok && running && !paused
    {
      running, paused := true, false;
      ok := true;
    }

    method Pause()
      modifies this`paused
      ensures paused
    {
      paused := true;
    }

    method Resume()
      modifies this`paused
      ensures !paused
    {
      paused := false;
    }

    method Stop()
      modifies this`running, this`paused
      ensures !running && !paused
    {
      running, paused := false, false;
    }

    /** What the detection and recovery half of a tick promises, for graph state s:
        d is the stored detection, ok the recovery's answer and t the graph after. */
    ghost predicate DetectedAndRecovered(s: RagState, config: SimulationConfig, d: DeadlockResult, ok: bool, t: RagState)
      requires Inv(s)
    {
      && DetectionOf(s, d)
      && (HasCycle(s) && config.autoRecover ==>
            Listed(d.deadlockedProcesses) && RecoveryOutcome(s, d, TickRecoveryConfig(config), ok, t))
    }

    /** The detection and recovery half of a tick. */
    method DetectAndRecover(config: SimulationConfig)
      requires Valid() && config.autoDetect
      modifies this, graph
      ensures Valid()
      ensures currentTick == old(currentTick) && running == old(running) && paused == old(paused)
      ensures scenario == old(scenario)
      ensures lastDetection.deadlockDetected <==> HasCycle(old(graph.State()))
      ensures !HasCycle(old(graph.State())) ==>
        graph.State() == old(graph.State()) && deadlockOccurred == old(deadlockOccurred) && events == old(events)
      ensures HasCycle(old(graph.State())) && !config.autoRecover ==>
        graph.State() == old(graph.State()) && deadlockOccurred &&
        events == Appended(old(events), SimulationEvent(currentTick, DeadlockDetected, -1, -1))
      ensures HasCycle(old(graph.State())) && config.autoRecover ==>
        deadlockOccurred == !lastRecovery.success &&
        events == (var logged := Appended(Appended(old(events),
                       SimulationEvent(currentTick, DeadlockDetected, -1, -1)),
                       SimulationEvent(currentTick, RecoveryStarted, -1, -1));
                   if lastRecovery.success then Appended(logged, SimulationEvent(currentTick, RecoveryCompleted, -1, -1))
                   else logged)
      ensures DetectedAndRecovered(old(graph.State()), config, lastDetection, lastRecovery.success, graph.State())
      ensures !(HasCycle(old(graph.State())) && config.autoRecover) ==> lastRecovery == old(lastRecovery)
    {
      var detected, detection := DetectDeadlock(graph.State());
      lastDetection := detection;
      if !detected {
        return;
      }
      deadlockOccurred := true;
      LogEvent(DeadlockDetected, -1, -1);
      if config.autoRecover {
        LogEvent(RecoveryStarted, -1, -1);
        DetectionListed(detection);
        var recovered, recovery := RecoverFromDeadlock(graph, detection, TickRecoveryConfig(config));
        lastRecovery := recovery;
        if recovered {
          LogEvent(RecoveryCompleted, -1, -1);
          deadlockOccurred := false;
        }
      }
    }

    /** A running tick up to its limit check: the clock advances, the tick is
        logged, and detection and recovery run when configured. */
    method Advance(config: Option<SimulationConfig>)
      requires Valid() && running && !paused
      modifies this, graph
      ensures Valid()
      ensures currentTick == old(currentTick) + 1 && running && !paused && scenario == old(scenario)
      ensures !AutoDetect(config) ==>
        graph.State() == old(graph.State()) && deadlockOccurred == old(deadlockOccurred) &&
        events == Appended(old(events), SimulationEvent(currentTick, ClockTick, -1, -1))
      ensures AutoDetect(config) && !HasCycle(old(graph.State())) ==>
        graph.State() == old(graph.State()) && deadlockOccurred == old(deadlockOccurred) &&
        events == Appended(old(events), SimulationEvent(currentTick, ClockTick, -1, -1))
      ensures AutoDetect(config) && HasCycle(old(graph.State())) ==>
        deadlockOccurred == (!AutoRecover(config) || !lastRecovery.success) &&
        |events| >= Min(MaxEvents, |old(events)| + 2) &&
        events[..Min(MaxEvents, |old(events)| + 2)] ==
          Appended(Appended(old(events), SimulationEvent(currentTick, ClockTick, -1, -1)),
                   SimulationEvent(currentTick, DeadlockDetected, -1, -1))
      ensures AutoDetect(config) && HasCycle(old(graph.State())) && !AutoRecover(config) ==>
        graph.State() == old(graph.State())
      ensures AutoDetect(config) ==>
        DetectedAndRecovered(old(graph.State()), config.value, lastDetection, lastRecovery.success, graph.State())
      ensures !AutoDetect(config) ==> lastDetection == old(lastDetection)
      ensures !(AutoDetect(config) && HasCycle(old(graph.State())) && AutoRecover(config)) ==>
        lastRecovery == old(lastRecovery)
    {
      currentTick := currentTick + 1;
      LogEvent(ClockTick, -1, -1);
      if AutoDetect(config) {
        ghost var logged := Appended(events, SimulationEvent(currentTick, DeadlockDetected, -1, -1));
        DetectAndRecover(config.value);
        if HasCycle(old(graph.State())) && config.value.autoRecover {
          ghost var started := Appended(logged, SimulationEvent(currentTick, RecoveryStarted, -1, -1));
          AppendedExtends(logged, SimulationEvent(currentTick, RecoveryStarted, -1, -1));
          AppendedExtends(started, SimulationEvent(currentTick, RecoveryCompleted, -1, -1));
          assert logged <= events;
        }
      }
    }

    /** simulation_tick: nothing happens unless running and not paused. Otherwise
        the clock advances and the tick is logged; with detection on, a cycle in
        the graph is recorded and logged, and with recovery on the configured
        strategy is applied, clearing the deadlock flag when it succeeds. The
        tick reports false, stopping the simulation, once the tick limit is
        reached. */
    method Tick(config: Option<SimulationConfig>) returns (ticked: bool)
      requires Valid()
      modifies this, graph
      ensures Valid()
      ensures !(old(running) && !old(paused)) ==>
        !ticked && graph.State() == old(graph.State()) && unchanged(this)
      ensures old(running) && !old(paused) ==>
        currentTick == old(currentTick) + 1 &&
        ticked == !TickLimitReached(config, currentTick) &&
        (ticked ==> running && !paused) && (!ticked ==> !running && !paused) &&
        scenario == old(scenario)
      ensures old(running) && !old(paused) && !AutoDetect(config) ==>
        graph.State() == old(graph.State()) && deadlockOccurred == old(deadlockOccurred) &&
        events == Appended(old(events), SimulationEvent(currentTick, ClockTick, -1, -1))
      ensures old(running) && !old(paused) && AutoDetect(config) ==>
        (lastDetection.deadlockDetected <==> HasCycle(old(graph.State())))
      ensures old(running) && !old(paused) && AutoDetect(config) && !HasCycle(old(graph.State())) ==>
        graph.State() == old(graph.State()) && deadlockOccurred == old(deadlockOccurred) &&
        events == Appended(old(events), SimulationEvent(currentTick, ClockTick, -1, -1))
      ensures old(running) && !old(paused) && AutoDetect(config) && HasCycle(old(graph.State())) ==>
        deadlockOccurred == (!AutoRecover(config) || !lastRecovery.success) &&
        |events| >= Min(MaxEvents, |old(events)| + 2) &&
        events[..Min(MaxEvents, |old(events)| + 2)] ==
          Appended(Appended(old(events), SimulationEvent(currentTick, ClockTick, -1, -1)),
                   SimulationEvent(currentTick, DeadlockDetected, -1, -1))
      ensures old(running) && !old(paused) && AutoDetect(config) && HasCycle(old(graph.State())) && !AutoRecover(config) ==>
        graph.State() == old(graph.State())
      ensures old(running) && !old(paused) && AutoDetect(config) ==>
        DetectedAndRecovered(old(graph.State()), config.value, lastDetection, lastRecovery.success, graph.State())
      ensures !AutoDetect(config) ==> lastDetection == old(lastDetection)
      ensures !(old(running) && !old(paused) && AutoDetect(config) && HasCycle(old(graph.State())) && AutoRecover(config)) ==>
        lastRecovery == old(lastRecovery)
    {
      if !running || paused {
        return false;
      }
      Advance(config);
      ticked := !TickLimitReached(config, currentTick);
      if !ticked {
        Stop();
      }
    }

    /** The measure that bounds a run without its own tick budget: while running,
        the ticks left before the configured limit. */
    ghost function TicksLeft(config: Option<SimulationConfig>): int
      reads this
    {
      (if running then 1 else 0) +
      (if config.Some? && config.value.maxTicks > currentTick then config.value.maxTicks - currentTick else 0)
    }

    /** simulation_run_until_deadlock: start, then tick until the simulation stops,
        a deadlock is flagged or the budget (0 = none) is spent; returns the ticks run. */
    method RunUntilDeadlock(config: Option<SimulationConfig>, maxTicks: int) returns (ticks: int)
      requires Valid()
      requires maxTicks != 0 || (config.Some? && config.value.maxTicks > 0)
      modifies this, graph
      ensures Valid()
      ensures 0 <= ticks && (maxTicks > 0 ==> ticks <= maxTicks) && (maxTicks < 0 ==> ticks == 0)
      ensures currentTick == old(currentTick) + ticks
      ensures deadlockOccurred || !running || maxTicks < 0 || ticks == maxTicks
      ensures ticks > 0 && !old(deadlockOccurred) && !AutoDetect(config) ==> !deadlockOccurred
    {
      var _ := Start();
      ticks := 0;
      ghost var tick0 := currentTick;
      ghost var flag0 := deadlockOccurred;
      while running && (maxTicks == 0 || ticks < maxTicks)
        invariant Valid() && !paused
        invariant 0 <= ticks && (maxTicks > 0 ==> ticks <= maxTicks) && (maxTicks < 0 ==> ticks == 0)
        invariant currentTick == tick0 + ticks
        invariant !AutoDetect(config) ==> deadlockOccurred == flag0
        decreases if maxTicks != 0 then maxTicks - ticks else TicksLeft(config)
      {
        var _ := Tick(config);
        ticks := ticks + 1;
        if deadlockOccurred {
          break;
        }
      }
    }

    // -------------------------------------------------------------------
    // Scenario builders
    // -------------------------------------------------------------------

    /** Logs each event's type and ids in turn at the current tick. */
    method LogEach(news: seq<SimulationEvent>)
      requires Valid() && forall k :: 0 <= k < |news| ==> news[k].timestamp == currentTick
      modifies this`events
      ensures Valid() && events == old(events) + news[..Min(|news|, MaxEvents - |old(events)|)]
    {
      ghost var cap := MaxEvents - |events|;
      var k := 0;
      while k < |news|
        invariant 0 <= k <= |news| && Valid()
        invariant events == old(events) + news[..Min(k, cap)]
      {
        LogEvent(news[k].eventType, news[k].processId, news[k].resourceId);
        if k < cap {
          assert news[..k + 1] == news[..k] + [news[k]];
        }
        k := k + 1;
      }
    }

    /** The ring shared by the circular-wait and dining-philosophers builders,
        with its events. */
    method BuildRing(n: int)
      requires Valid() && 2 <= n <= MaxProcesses
      requires graph.State() == Empty() && events == [] && currentTick == 0
      modifies this, graph
      ensures Valid() && RingGraph(graph.State(), n) && events == RingEvents(n)
      ensures currentTick == 0 && scenario == old(scenario) && deadlockOccurred == old(deadlockOccurred)
      ensures running == old(running) && paused == old(paused)
    {
      BuildRingGraph(graph, n);
      var logged := RingEvents(n);
      LogEach(logged);
      assert logged[..|logged|] == logged;
    }

    /** setup_circular_wait: nothing for n < 2; otherwise (n capped at 64) a reset
        followed by the ring of n processes, flagged as deadlocked. */
    method SetupCircularWait(n: int)
      requires Valid()
      modifies this, graph
      ensures Valid()
      ensures n < 2 ==> graph.State() == old(graph.State()) && unchanged(this)
      ensures n >= 2 ==> var m := Min(n, MaxProcesses);
        scenario == CircularWait && RingGraph(graph.State(), m) && HasCycle(graph.State()) &&
        events == RingEvents(m) && deadlockOccurred && currentTick == 0 && !running && !paused
    {
      if n < 2 {
        return;
      }
      var m := if n > MaxProcesses then MaxProcesses else n;
      Reset();
      scenario := CircularWait;
      BuildRing(m);
      RingHasCycle(graph.State(), m);
      deadlockOccurred := true;
    }

    /** setup_dining_philosophers: the same ring, philosophers holding their left
        fork and requesting the right one. */
    method SetupDiningPhilosophers(n: int)
      requires Valid()
      modifies this, graph
      ensures Valid()
      ensures n < 2 ==> graph.State() == old(graph.State()) && unchanged(this)
      ensures n >= 2 ==> var m := Min(n, MaxProcesses);
        scenario == DiningPhilosophers && RingGraph(graph.State(), m) && HasCycle(graph.State()) &&
        events == RingEvents(m) && deadlockOccurred && currentTick == 0 && !running && !paused
    {
      if n < 2 {
        return;
      }
      var m := if n > MaxProcesses then MaxProcesses else n;
      Reset();
      scenario := DiningPhilosophers;
      BuildRing(m);
      RingHasCycle(graph.State(), m);
      deadlockOccurred := true;
    }

    /** setup_simple_deadlock: two processes, each holding one single-instance
        resource and requesting the other's. */
    method SetupSimpleDeadlock()
      requires Valid()
      modifies this, graph
      ensures Valid()
      ensures scenario == SimpleDeadlock && RingGraph(graph.State(), 2) && HasCycle(graph.State())
      ensures deadlockOccurred && currentTick == 0 && !running && !paused
      ensures events == SimpleDeadlockEvents()
    {
      Reset();
      scenario := SimpleDeadlock;
      BuildCrossPair(graph);
      var logged := SimpleDeadlockEvents();
      LogEach(logged);
      assert logged[..|logged|] == logged;
      deadlockOccurred := true;
    }

    /** The no-deadlock scenario: two processes each holding one resource, no requests. */
    method SetupNoDeadlock()
      requires Valid()
      modifies this, graph
      ensures Valid()
      ensures scenario == NoDeadlock && Layout(graph.State(), 2, 2, OwnHeld(2), {}) && !HasCycle(graph.State())
      ensures !deadlockOccurred && events == [] && currentTick == 0 && !running && !paused
    {
      Reset();
      scenario := NoDeadlock;
      BuildOwnHolds(graph);
    }

    /** The multiple-cycles scenario: two independent two-process cross holds. */
    method SetupMultipleCycles()
      requires Valid()
      modifies this, graph
      ensures Valid()
      ensures scenario == MultipleCycles && HasCycle(graph.State())
      ensures Layout(graph.State(), 4, 4, OwnHeld(4), CrossWanted(4))
      ensures deadlockOccurred && events == [] && currentTick == 0 && !running && !paused
    {
      Reset();
      scenario := MultipleCycles;
      BuildTwoCycles(graph);
      FirstCrossHold(graph.State());
      deadlockOccurred := true;
    }

    /** The custom scenario: an empty graph for the caller to fill. */
    method SetupCustom()
      requires Valid()
      modifies this, graph
      ensures Valid() && scenario == Custom && graph.State() == Empty() && !HasCycle(graph.State())
      ensures !deadlockOccurred && events == [] && currentTick == 0 && !running && !paused
    {
      Reset();
      scenario := Custom;
      NoRequestNoCycle(graph.State());
    }

    /** simulation_load_scenario: the scenarios with a builder load and report
        true; the others change nothing and report false. */
    method LoadScenario(sc: Scenario) returns (ok: bool)
      requires Valid() && sc != RandomScenario
      modifies this, graph
      ensures Valid()
      ensures ok <==> HasBuilder(sc)
      ensures !ok ==> graph.State() == old(graph.State()) && unchanged(this)
      ensures ok ==> scenario == sc && currentTick == 0 && !running && !paused
      ensures sc == SimpleDeadlock ==> RingGraph(graph.State(), 2)
      ensures sc == CircularWait ==> RingGraph(graph.State(), 4) && events == RingEvents(4)
      ensures sc == DiningPhilosophers ==> RingGraph(graph.State(), 5) && events == RingEvents(5)
      ensures ok ==> deadlockOccurred == BuildsDeadlock(sc) && HasCycle(graph.State()) == BuildsDeadlock(sc)
      ensures sc == Custom ==> graph.State() == Empty() && events == []
    {
      ok := true;
      match sc
      case SimpleDeadlock =>
        SetupSimpleDeadlock();
      case CircularWait =>
        SetupCircularWait(4);
      case DiningPhilosophers =>
        SetupDiningPhilosophers(5);
      case NoDeadlock =>
        SetupNoDeadlock();
      case MultipleCycles =>
        SetupMultipleCycles();
      case Custom =>
        SetupCustom();
      case _ =>
        ok := false;
    }
  }

  /** The graph of the multiple-cycles scenario, from an empty one: two cross
      holds, the second on processes and resources 2 and 3. */
  method BuildTwoCycles(graph: Graph)
    requires graph.Valid() && graph.State() == Empty()
    modifies graph
    ensures graph.Valid() && Layout(graph.State(), 4, 4, OwnHeld(4), CrossWanted(4))
  {
    BuildCrossPair(graph);
    RingOfTwo();
    var _, _, _, _ := CrossHold(graph, 2);
  }

  /** The graph of the no-deadlock scenario, from an empty one: two processes
      each holding a resource of their own, with no requests. */
  method BuildOwnHolds(graph: Graph)
    requires graph.Valid() && graph.State() == Empty()
    modifies graph
    ensures graph.Valid() && Layout(graph.State(), 2, 2, OwnHeld(2), {}) && !HasCycle(graph.State())
  {
    EmptyLayout();
    var p1, p2, r1, r2 := AddPair(graph, 0, 0, {}, {});
    HoldPair(graph, 2, 2, {}, {}, p1, p2, r1, r2);
    assert {} + {(0, 0), (1, 1)} == OwnHeld(2);
    NoRequestNoCycle(graph.State());
  }

  /** The graph of the simple-deadlock scenario, from an empty one: the ring of
      two processes. */
  method BuildCrossPair(graph: Graph)
    requires graph.Valid() && graph.State() == Empty()
    modifies graph
    ensures graph.Valid() && RingGraph(graph.State(), 2) && HasCycle(graph.State())
  {
    EmptyLayout();
    RingOfTwo();
    var _, _, _, _ := CrossHold(graph, 0);
    RingHasCycle(graph.State(), 2);
  }

  /** The graph of the circular-wait scenario, from an empty one: n processes
      and resources, then each process holding its own resource and requesting
      the next one round the ring. */
  method BuildRingGraph(graph: Graph, n: int)
    requires graph.Valid() && graph.State() == Empty() && 2 <= n <= MaxProcesses
    modifies graph
    ensures graph.Valid() && RingGraph(graph.State(), n)
  {
    EmptyLayout();
    var i := 0;
    while i < n
      invariant 0 <= i <= n && graph.Valid()
      invariant Layout(graph.State(), i, i, {}, {})
    {
      var _ := AddRingNode(graph, i);
      i := i + 1;
    }
    LinkRing(graph, n);
  }

  /** Links every position of an unlinked ring of n. */
  method LinkRing(graph: Graph, n: int)
    requires graph.Valid() && Layout(graph.State(), n, n, {}, {}) && 2 <= n <= MaxProcesses
    modifies graph
    ensures graph.Valid() && RingGraph(graph.State(), n)
  {
    assert OwnHeld(0) == {} && NextWanted(0, n) == {};
    var i := 0;
    while i < n
      invariant 0 <= i <= n && graph.Valid()
      invariant Layout(graph.State(), n, n, OwnHeld(i), NextWanted(i, n))
    {
      LinkRingNode(graph, n, i);
      i := i + 1;
    }
  }
}
