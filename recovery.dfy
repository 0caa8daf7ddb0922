// Deadlock recovery: victim scoring and selection, termination cost, the
// termination, preemption and rollback strategies over the graph object, and
// the read-only analysis and recommendation helpers.

module Recovery {
  import opened Wrappers
  import opened Sums
  import opened Rag
  import opened CycleDetector

  datatype RecoveryStrategy =
    | TerminateAll
    | TerminateOne
    | TerminateLowest
    | TerminateYoungest
    | TerminateOldest
    | PreemptResources
    | Rollback

  datatype SelectionCriteria =
    | LowestPriority
    | FewestResources
    | MostResources
    | ShortestRuntime
    | LongestRuntime
    | MinimumCost
      /** An integer outside the enumeration, cast in by a caller: the
          selection switch has no branch for it and leaves the score 0. */
    | OtherCriteria

  /** The recovery configuration; `strategy` is the raw enumeration value, so
      that a value outside the enumeration reaches the dispatcher's default branch. */
  datatype RecoveryConfig = RecoveryConfig(
    strategy: int,
    selection: SelectionCriteria,
    maxTerminations: int,
    preserveCritical: bool,
    criticalPriorityThreshold: int,
    verbose: bool)

  /** One entry of the action log; the description text is not modelled. */
  datatype RecoveryAction = RecoveryAction(processId: int, resourceId: int, strategy: RecoveryStrategy, success: bool)

  /** The recovery result; `actions` holds the recorded entries of the 64-slot log
      and the summary text is not modelled. */
  datatype RecoveryResult = RecoveryResult(
    success: bool,
    actions: seq<RecoveryAction>,
    processesTerminated: int,
    resourcesPreempted: int,
    iterations: int)

  // ---------------------------------------------------------------------
  // Strategy codes and the result record
  // ---------------------------------------------------------------------

  /** The position of a strategy in the C enumeration. */
  function StrategyCode(s: RecoveryStrategy): (code: int)
    ensures 0 <= code < 7
  {
    match s
    case TerminateAll => 0
    case TerminateOne => 1
    case TerminateLowest => 2
    case TerminateYoungest => 3
    case TerminateOldest => 4
    case PreemptResources => 5
    case Rollback => 6
  }

  /** The strategy an enumeration value names, or None for a value outside it
      (the `default` branches of the strategy switches). */
  function StrategyOf(code: int): (s: Option<RecoveryStrategy>)
    ensures s.Some? <==> 0 <= code < 7
  {
    if code == 0 then Some(TerminateAll)
    else if code == 1 then Some(TerminateOne)
    else if code == 2 then Some(TerminateLowest)
    else if code == 3 then Some(TerminateYoungest)
    else if code == 4 then Some(TerminateOldest)
    else if code == 5 then Some(PreemptResources)
    else if code == 6 then Some(Rollback)
    else None
  }

  /** The criterion an integer names once cast to the enumeration: values
      outside it become OtherCriteria. */
  function CriteriaOf(code: int): (c: SelectionCriteria)
    ensures c == OtherCriteria <==> !(0 <= code < 6)
  {
    if code == 0 then LowestPriority
    else if code == 1 then FewestResources
    else if code == 2 then MostResources
    else if code == 3 then ShortestRuntime
    else if code == 4 then LongestRuntime
    else if code == 5 then MinimumCost
    else OtherCriteria
  }

  lemma StrategyCodeRoundTrip(s: RecoveryStrategy, code: int)
    ensures StrategyOf(StrategyCode(s)) == Some(s)
    ensures StrategyOf(code).Some? ==> StrategyCode(StrategyOf(code).value) == code
  {
  }

  /** recovery_result_init: not successful, nothing logged, every counter zero. */
  function InitRecovery(): (r: RecoveryResult)
    ensures !r.success && r.actions == [] && r.processesTerminated == 0
    ensures r.resourcesPreempted == 0 && r.iterations == 0
  {
    RecoveryResult(false, [], 0, 0, 0)
  }

  /** recovery_config_init: terminate the lowest-priority process, no
      termination limit, processes of priority 90 and above are critical. */
  function DefaultConfig(): (c: RecoveryConfig)
    ensures StrategyOf(c.strategy) == Some(TerminateLowest) && c.selection == LowestPriority
    ensures c.maxTerminations == 0 && c.preserveCritical && c.criticalPriorityThreshold == 90 && !c.verbose
  {
    RecoveryConfig(StrategyCode(TerminateLowest), LowestPriority, 0, true, 90, false)
  }

  /** Records an action while fewer than 64 are logged. */
  function Logged(actions: seq<RecoveryAction>, a: RecoveryAction): seq<RecoveryAction>
  {
    if |actions| < MaxProcesses then actions + [a] else actions
  }

  function LoggedAll(actions: seq<RecoveryAction>, news: seq<RecoveryAction>): seq<RecoveryAction>
    decreases |news|
  {
    if |news| == 0 then actions else Logged(LoggedAll(actions, news[..|news| - 1]), news[|news| - 1])
  }

  function Min(a: int, b: int): int
  {
    if a <= b then a else b
  }

  /** The log keeps what was there and as many of the new entries, in order, as fit in 64 slots. */
  lemma {:induction false} LoggedAllKeepsPrefix(actions: seq<RecoveryAction>, news: seq<RecoveryAction>)
    requires |actions| <= MaxProcesses
    ensures |LoggedAll(actions, news)| == Min(MaxProcesses, |actions| + |news|)
    ensures LoggedAll(actions, news)[..|actions|] == actions
    ensures forall i :: |actions| <= i < |LoggedAll(actions, news)| ==> LoggedAll(actions, news)[i] == news[i - |actions|]
  {
    if |news| > 0 {
      var init := news[..|news| - 1];
      LoggedAllKeepsPrefix(actions, init);
      var l := LoggedAll(actions, init);
      if |l| < MaxProcesses {
        assert LoggedAll(actions, news) == l + [news[|news| - 1]];
      }
    }
  }

  /** The entries the termination strategies log for the processes they removed. */
  function TerminationLog(pids: seq<int>, strategy: RecoveryStrategy): (log: seq<RecoveryAction>)
    ensures |log| == |pids|
    ensures forall i :: 0 <= i < |pids| ==> log[i] == RecoveryAction(pids[i], -1, strategy, true)
  {
    seq(|pids|, i requires 0 <= i < |pids| => RecoveryAction(pids[i], -1, strategy, true))
  }

  // ---------------------------------------------------------------------
  // Scores, cost and victim selection
  // ---------------------------------------------------------------------

  function IsPositive(x: int): bool
  {
    x > 0
  }

  /** Every id lies in the process table, as the selection loop indexes it. */
  ghost predicate Listed(pids: seq<int>)
  {
    forall i :: 0 <= i < |pids| ==> 0 <= pids[i] < MaxProcesses
  }

  /** (resource, requester) pairs over the first k resources held by p: for each
      held resource, the number of processes requesting it, p itself included. */
  ghost function Waiters(s: RagState, p: int, k: int): int
    requires Shaped(s) && 0 <= p < MaxProcesses && 0 <= k <= MaxResources
  {
    if k == 0 then 0
    else Waiters(s, p, k - 1) + (if s.assignment[p][k - 1] > 0 then CountWhere(Column(s.request, k - 1), IsPositive) else 0)
  }

  /** calculate_termination_cost: 0 for an id outside the table or an inactive
      slot; otherwise ten times the priority, twenty per held unit and fifteen
      per (held resource, requester) pair. */
  ghost function TerminationCost(s: RagState, p: int): int
    requires Shaped(s)
  {
    if p < 0 || p >= MaxProcesses || !s.processes[p].active then 0
    else s.processes[p].priority * 10 + 20 * Sum(s.assignment[p]) + 15 * Waiters(s, p, MaxResources)
  }

  /** The score each criterion gives a process; the highest score is chosen. */
  ghost function Score(s: RagState, p: int, c: SelectionCriteria): int
    requires Shaped(s) && 0 <= p < MaxProcesses
  {
    match c
    case LowestPriority => 100 - s.processes[p].priority
    case FewestResources => MaxResources - Sum(s.assignment[p])
    case MostResources => Sum(s.assignment[p])
    case ShortestRuntime => p
    case LongestRuntime => MaxProcesses - p
    case MinimumCost => 1000 - TerminationCost(s, p)
    case OtherCriteria => 0
  }

  /** The victim after scanning pids in order: an active process replaces the
      current choice when there is none yet or it scores strictly higher. */
  ghost function VictimOf(s: RagState, pids: seq<int>, c: SelectionCriteria): (v: int)
    requires Shaped(s) && Listed(pids)
    ensures v == -1 || (0 <= v < MaxProcesses && v in pids && s.processes[v].active)
  {
    if |pids| == 0 then -1
    else
      var v := VictimOf(s, pids[..|pids| - 1], c);
      var p := pids[|pids| - 1];
      if !s.processes[p].active then v
      else if v == -1 || Score(s, p, c) > Score(s, v, c) then p
      else v
  }

  /** The victim is the first listed active process of maximal score, and there
      is none exactly when no listed process is active. */
  lemma {:induction false} VictimIsFirstBest(s: RagState, pids: seq<int>, c: SelectionCriteria)
    requires Shaped(s) && Listed(pids)
    ensures VictimOf(s, pids, c) == -1 <==> forall j :: 0 <= j < |pids| ==> !s.processes[pids[j]].active
    ensures VictimOf(s, pids, c) != -1 ==>
              forall j :: 0 <= j < |pids| && s.processes[pids[j]].active ==>
                Score(s, pids[j], c) <= Score(s, VictimOf(s, pids, c), c)
    ensures VictimOf(s, pids, c) != -1 ==>
              exists i :: 0 <= i < |pids| && pids[i] == VictimOf(s, pids, c) &&
                forall j :: 0 <= j < i && s.processes[pids[j]].active ==>
                  Score(s, pids[j], c) < Score(s, VictimOf(s, pids, c), c)
  {
    if |pids| > 0 {
      var n := |pids| - 1;
      var init := pids[..n];
      VictimIsFirstBest(s, init, c);
      var v0 := VictimOf(s, init, c);
      var p := pids[n];
      var v := VictimOf(s, pids, c);
      assert forall j :: 0 <= j < n ==> init[j] == pids[j];
      if s.processes[p].active && (v0 == -1 || Score(s, p, c) > Score(s, v0, c)) {
        assert v == p && pids[n] == v;
        assert forall j :: 0 <= j < n && s.processes[pids[j]].active ==> Score(s, pids[j], c) < Score(s, p, c);
      } else if v0 != -1 {
        assert v == v0;
        var i :| 0 <= i < n && init[i] == v0 &&
          forall j :: 0 <= j < i && s.processes[init[j]].active ==> Score(s, init[j], c) < Score(s, v0, c);
        assert pids[i] == v;
        assert forall j :: 0 <= j < i && s.processes[pids[j]].active ==> Score(s, pids[j], c) < Score(s, v, c);
      } else {
        assert v == -1;
      }
    }
  }

  /** The held-units loop of the scoring code. */
  method HeldUnits(g: RagState, p: int) returns (held: int)
    requires Shaped(g) && 0 <= p < MaxProcesses
    ensures held == Sum(g.assignment[p])
  {
    held := 0;
    var r := 0;
    while r < MaxResources
      invariant 0 <= r <= MaxResources
      invariant held == Sum(g.assignment[p][..r])
    {
      SumPrefixStep(g.assignment[p], r);
      held := held + g.assignment[p][r];
      r := r + 1;
    }
    assert g.assignment[p][..MaxResources] == g.assignment[p];
  }

  /** calculate_termination_cost. */
  method CalculateTerminationCost(g: RagState, p: int) returns (cost: int)
    requires Shaped(g)
    ensures cost == TerminationCost(g, p)
  {
    if p < 0 || p >= MaxProcesses {
      return 0;
    }
    if !g.processes[p].active {
      return 0;
    }
    cost := g.processes[p].priority * 10;
    var r := 0;
    while r < MaxResources
      invariant 0 <= r <= MaxResources
      invariant cost == g.processes[p].priority * 10 + 20 * Sum(g.assignment[p][..r])
    {
      SumPrefixStep(g.assignment[p], r);
      cost := cost + g.assignment[p][r] * 20;
      r := r + 1;
    }
    assert g.assignment[p][..MaxResources] == g.assignment[p];
    ghost var base := cost;
    r := 0;
    while r < MaxResources
      invariant 0 <= r <= MaxResources
      invariant cost == base + 15 * Waiters(g, p, r)
    {
      if g.assignment[p][r] > 0 {
        ghost var col := Column(g.request, r);
        ghost var before := cost;
        var p2 := 0;
        while p2 < MaxProcesses
          invariant 0 <= p2 <= MaxProcesses
          invariant cost == before + 15 * CountWhere(col[..p2], IsPositive)
        {
          CountWherePrefixStep(col, IsPositive, p2);
          if g.request[p2][r] > 0 {
            cost := cost + 15;
          }
          p2 := p2 + 1;
        }
        assert col[..MaxProcesses] == col;
      }
      r := r + 1;
    }
  }

  lemma {:induction false} WaitersNonNegative(s: RagState, p: int, k: int)
    requires Shaped(s) && 0 <= p < MaxProcesses && 0 <= k <= MaxResources
    ensures Waiters(s, p, k) >= 0
  {
    if k > 0 {
      WaitersNonNegative(s, p, k - 1);
    }
  }

  lemma {:induction false} WaitersCountHeld(s: RagState, p: int, k: int, r: int)
    requires Shaped(s) && 0 <= p < MaxProcesses && 0 <= r < k <= MaxResources && s.assignment[p][r] > 0
    ensures Waiters(s, p, k) >= CountWhere(Column(s.request, r), IsPositive)
  {
    WaitersNonNegative(s, p, k - 1);
    if r < k - 1 {
      WaitersCountHeld(s, p, k - 1, r);
    }
  }

  /** In a well-formed graph a live process costs at least ten times its priority
      plus twenty per held unit; one that requests a resource it holds also counts
      itself among the waiters, adding fifteen. */
  lemma CostBounds(s: RagState, p: int, r: int)
    requires Inv(s) && IsLiveProcess(s, p) && 0 <= r < MaxResources
    ensures TerminationCost(s, p) >= 10 * s.processes[p].priority + 20 * Sum(s.assignment[p])
    ensures s.assignment[p][r] > 0 && s.request[p][r] > 0 ==>
              TerminationCost(s, p) >= 10 * s.processes[p].priority + 20 * Sum(s.assignment[p]) + 15
  {
    WaitersNonNegative(s, p, MaxResources);
    if s.assignment[p][r] > 0 && s.request[p][r] > 0 {
      WaitersCountHeld(s, p, MaxResources, r);
      assert IsPositive(Column(s.request, r)[p]);
      CountWherePositive(Column(s.request, r), IsPositive, p);
    }
  }

  /** The score of one process under a criterion (the switch of the selection loop). */
  method ScoreOf(g: RagState, p: int, c: SelectionCriteria) returns (score: int)
    requires Shaped(g) && 0 <= p < MaxProcesses
    ensures score == Score(g, p, c)
  {
    match c
    case LowestPriority =>
      score := 100 - g.processes[p].priority;
    case FewestResources =>
      var held := HeldUnits(g, p);
      score := MaxResources - held;
    case MostResources =>
      score := HeldUnits(g, p);
    case ShortestRuntime =>
      score := p;
    case LongestRuntime =>
      score := MaxProcesses - p;
    case MinimumCost =>
      var cost := CalculateTerminationCost(g, p);
      score := 1000 - cost;
    case OtherCriteria =>
      score := 0;
  }

  /** select_victim_process. */
  method SelectVictim(g: RagState, pids: seq<int>, c: SelectionCriteria) returns (victim: int)
    requires Shaped(g) && Listed(pids)
    ensures victim == VictimOf(g, pids, c)
  {
    if |pids| == 0 {
      return -1;
    }
    victim := -1;
    var best := 0;
    var first := true;
    var i := 0;
    while i < |pids|
      invariant 0 <= i <= |pids|
      invariant victim == VictimOf(g, pids[..i], c)
      invariant first <==> victim == -1
      invariant victim != -1 ==> 0 <= victim < MaxProcesses && best == Score(g, victim, c)
    {
      var pid := pids[i];
      assert pids[..i + 1][..i] == pids[..i];
      if g.processes[pid].active {
        var score := ScoreOf(g, pid, c);
        if first || score > best {
          best := score;
          victim := pid;
          first := false;
        }
      }
      i := i + 1;
    }
    assert pids[..|pids|] == pids;
  }

  /** is_critical_process. */
  function IsCriticalProcess(g: RagState, p: int, threshold: int): (b: bool)
    requires Shaped(g)
    ensures b <==> IsLiveProcess(g, p) && g.processes[p].priority >= threshold
  {
    if p < 0 || p >= MaxProcesses then false
    else if !g.processes[p].active then false
    else g.processes[p].priority >= threshold
  }

  // ---------------------------------------------------------------------
  // Effects of the strategies on the graph
  // ---------------------------------------------------------------------

  /** Releasing p's holdings before removing it changes nothing: removal releases them anyway. */
  lemma ReleaseThenRemove(s: RagState, p: int)
    requires Shaped(s) && 0 <= p < MaxProcesses
    ensures RemoveProcessAt(ReleaseAllOf(s, p), p) == RemoveProcessAt(s, p)
  {
    var t := ReleaseAllOf(s, p);
    assert t.assignment[p] == Zeros(MaxResources);
    assert ReleaseAllOf(t, p).resources == t.resources;
    assert ReleaseAllOf(t, p) == t;
  }

  /** The graph after the terminate-all loop: each listed process still live when
      its turn comes is removed. */
  ghost function AfterTermination(s: RagState, pids: seq<int>): (t: RagState)
    requires Inv(s)
    ensures Inv(t)
    decreases |pids|
  {
    if |pids| == 0 then s
    else
      var u := AfterTermination(s, pids[..|pids| - 1]);
      var p := pids[|pids| - 1];
      if IsLiveProcess(u, p) then
        RemoveProcessPreservesInv(u, p);
        RemoveProcessAt(u, p)
      else u
  }

  /** The processes the terminate-all loop removes, in order. */
  ghost function Terminated(s: RagState, pids: seq<int>): seq<int>
    requires Inv(s)
    decreases |pids|
  {
    if |pids| == 0 then []
    else
      var init := pids[..|pids| - 1];
      Terminated(s, init) + (if IsLiveProcess(AfterTermination(s, init), pids[|pids| - 1]) then [pids[|pids| - 1]] else [])
  }

  /** Terminate-all removes exactly the listed processes that were live, each
      once; every listed process ends up gone, every other process keeps its
      slot and its edges, and the live count drops by the number removed. */
  lemma TerminationEffect(s: RagState, pids: seq<int>)
    requires Inv(s)
    ensures var t := AfterTermination(s, pids);
      (forall x :: x in pids ==> !IsLiveProcess(t, x)) &&
      (forall q :: 0 <= q < MaxProcesses && q !in pids ==>
         t.processes[q] == s.processes[q] && t.request[q] == s.request[q] && t.assignment[q] == s.assignment[q]) &&
      (forall x :: x in Terminated(s, pids) <==> x in pids && IsLiveProcess(s, x)) &&
      Distinct(Terminated(s, pids)) &&
      t.processCount == s.processCount - |Terminated(s, pids)|
  {
    TerminationRemoves(s, pids);
    TerminatedListed(s, pids);
  }

  /** The graph after terminate-all: the listed processes are gone, the others
      untouched, and the live count is down by the number removed. */
  lemma {:induction false} TerminationRemoves(s: RagState, pids: seq<int>)
    requires Inv(s)
    ensures var t := AfterTermination(s, pids);
      (forall x :: x in pids ==> !IsLiveProcess(t, x)) &&
      (forall q :: 0 <= q < MaxProcesses && q !in pids ==>
         t.processes[q] == s.processes[q] && t.request[q] == s.request[q] && t.assignment[q] == s.assignment[q]) &&
      t.processCount == s.processCount - |Terminated(s, pids)|
  {
    if |pids| > 0 {
      var init := pids[..|pids| - 1];
      var p := pids[|pids| - 1];
      TerminationRemoves(s, init);
      var u := AfterTermination(s, init);
      assert forall x :: x in pids <==> x in init || x == p;
      if IsLiveProcess(u, p) {
        RemoveProcessEffect(u, p);
      }
    }
  }

  /** The processes terminate-all removes are the listed ones that were live,
      each listed once. */
  lemma {:induction false} TerminatedListed(s: RagState, pids: seq<int>)
    requires Inv(s)
    ensures forall x :: x in Terminated(s, pids) <==> x in pids && IsLiveProcess(s, x)
    ensures Distinct(Terminated(s, pids))
  {
    if |pids| > 0 {
      var init := pids[..|pids| - 1];
      var p := pids[|pids| - 1];
      TerminatedListed(s, init);
      TerminationRemoves(s, init);
      assert forall x :: x in pids <==> x in init || x == p;
      if IsLiveProcess(AfterTermination(s, init), p) {
        assert p !in init;
        assert p !in Terminated(s, init);
      }
    }
  }

  /** Preempting everything from p and blocking it. */
  ghost function WithProcessState(s: RagState, p: int, st: ProcessState): RagState
    requires Shaped(s) && 0 <= p < MaxProcesses
  {
    s.(processes := s.processes[p := s.processes[p].(state := st)])
  }

  /** Preempt-all leaves the process live and blocked, holding nothing and with
      its requests kept; the other processes keep their rows. */
  lemma PreemptAllEffect(s: RagState, p: int)
    requires Inv(s) && IsLiveProcess(s, p)
    ensures var t := WithProcessState(ReleaseAllOf(s, p), p, Blocked);
      IsLiveProcess(t, p) && t.processes[p].state == Blocked &&
      t.assignment[p] == Zeros(MaxResources) && t.request[p] == s.request[p] &&
      forall q :: 0 <= q < MaxProcesses && q != p ==> t.assignment[q] == s.assignment[q] && t.processes[q] == s.processes[q]
  {
  }

  /** The graph after releasing one unit of each listed resource that p still holds. */
  ghost function ReleaseEach(s: RagState, p: int, rids: seq<int>): (t: RagState)
    requires Inv(s) && 0 <= p < MaxProcesses
    ensures Inv(t)
    decreases |rids|
  {
    if |rids| == 0 then s
    else
      var u := ReleaseEach(s, p, rids[..|rids| - 1]);
      var r := rids[|rids| - 1];
      if CanRelease(u, p, r) then
        ReleaseUnitPreservesInv(u, p, r);
        ReleaseUnit(u, p, r)
      else u
  }

  /** The listed resources a unit was actually taken back from, in order. */
  ghost function ReleasedIds(s: RagState, p: int, rids: seq<int>): seq<int>
    requires Inv(s) && 0 <= p < MaxProcesses
    decreases |rids|
  {
    if |rids| == 0 then []
    else
      var init := rids[..|rids| - 1];
      ReleasedIds(s, p, init) + (if CanRelease(ReleaseEach(s, p, init), p, rids[|rids| - 1]) then [rids[|rids| - 1]] else [])
  }

  /** Each successful preemption takes exactly one unit from p, touches no
      request and no other process's holdings. */
  lemma {:induction false} ReleaseEachEffect(s: RagState, p: int, rids: seq<int>)
    requires Inv(s) && 0 <= p < MaxProcesses
    ensures var t := ReleaseEach(s, p, rids);
      Sum(t.assignment[p]) == Sum(s.assignment[p]) - |ReleasedIds(s, p, rids)| &&
      t.request == s.request && t.processes == s.processes &&
      forall q :: 0 <= q < MaxProcesses && q != p ==> t.assignment[q] == s.assignment[q]
  {
    if |rids| > 0 {
      var init := rids[..|rids| - 1];
      ReleaseEachEffect(s, p, init);
      var u := ReleaseEach(s, p, init);
      var r := rids[|rids| - 1];
      if CanRelease(u, p, r) {
        SumUpdate(u.assignment[p], r, u.assignment[p][r] - 1);
      }
    }
  }

  function PreemptionLog(p: int, rids: seq<int>): (log: seq<RecoveryAction>)
    ensures |log| == |rids|
    ensures forall i :: 0 <= i < |rids| ==> log[i] == RecoveryAction(p, rids[i], PreemptResources, true)
  {
    seq(|rids|, i requires 0 <= i < |rids| => RecoveryAction(p, rids[i], PreemptResources, true))
  }

  /** Rolling p back: its holdings go back, every request of it is cancelled and it runs again. */
  ghost function RolledBack(s: RagState, p: int): RagState
    requires Shaped(s) && 0 <= p < MaxProcesses
  {
    var t := ReleaseAllOf(s, p);
    t.(request := t.request[p := Zeros(MaxResources)],
       processes := t.processes[p := t.processes[p].(state := Running)])
  }

  /** After a rollback the process is live and running, holds nothing and
      requests nothing; every other process keeps its rows. */
  lemma RollbackEffect(s: RagState, p: int)
    requires Inv(s) && IsLiveProcess(s, p)
    ensures var t := RolledBack(s, p);
      IsLiveProcess(t, p) && t.processes[p].state == Running &&
      t.assignment[p] == Zeros(MaxResources) && t.request[p] == Zeros(MaxResources) &&
      forall q :: 0 <= q < MaxProcesses && q != p ==>
        t.assignment[q] == s.assignment[q] && t.request[q] == s.request[q] && t.processes[q] == s.processes[q]
  {
  }

  // ---------------------------------------------------------------------
  // The strategies, on the graph object
  // ---------------------------------------------------------------------

  /** One more listed process: it is terminated exactly when it is still live. */
  lemma TerminationSnoc(s: RagState, pids: seq<int>, i: int)
    requires Inv(s) && 0 <= i < |pids|
    ensures var u := AfterTermination(s, pids[..i]);
      AfterTermination(s, pids[..i + 1]) == (if IsLiveProcess(u, pids[i]) then RemoveProcessAt(u, pids[i]) else u) &&
      Terminated(s, pids[..i + 1]) ==
        Terminated(s, pids[..i]) + (if IsLiveProcess(u, pids[i]) then [pids[i]] else [])
  {
    assert pids[..i + 1][..i] == pids[..i];
  }

  /** A new log entry for one more removed process extends the logged prefix by it. */
  lemma TerminationLogSnoc(actions: seq<RecoveryAction>, gone: seq<int>, pid: int, strategy: RecoveryStrategy)
    ensures LoggedAll(actions, TerminationLog(gone + [pid], strategy)) ==
            Logged(LoggedAll(actions, TerminationLog(gone, strategy)), RecoveryAction(pid, -1, strategy, true))
  {
    assert TerminationLog(gone + [pid], strategy)[..|gone|] == TerminationLog(gone, strategy);
  }

  /** One step of the terminate loops: a live process has its holdings released
      and is removed; any other id is skipped. */
  method TerminateProcess(graph: Graph, pid: int) returns (removed: bool)
    requires graph.Valid()
    modifies graph
    ensures graph.Valid()
    ensures removed == IsLiveProcess(old(graph.State()), pid)
    ensures graph.State() == if removed then RemoveProcessAt(old(graph.State()), pid) else old(graph.State())
  {
    var p := graph.GetProcess(pid);
    if p.None? {
      return false;
    }
    ghost var u := graph.State();
    var _ := graph.ReleaseAll(pid);
    var _ := graph.RemoveProcess(pid);
    ReleaseThenRemove(u, pid);
    removed := true;
  }

  /** recovery_terminate_all. */
  method TerminateAllProcesses(graph: Graph, deadlock: DeadlockResult, res0: RecoveryResult)
    returns (ok: bool, res: RecoveryResult)
    requires graph.Valid()
    modifies graph
    ensures graph.Valid()
    ensures graph.State() == AfterTermination(old(graph.State()), deadlock.deadlockedProcesses)
    ensures var gone := Terminated(old(graph.State()), deadlock.deadlockedProcesses);
      res == res0.(actions := LoggedAll(res0.actions, TerminationLog(gone, TerminateAll)),
                   processesTerminated := |gone|, success := |gone| > 0) &&
      ok == res.success
  {
    ghost var s0 := graph.State();
    var pids := deadlock.deadlockedProcesses;
    res := res0;
    var terminated := 0;
    ghost var gone: seq<int> := [];
    var i := 0;
    while i < |pids|
      invariant 0 <= i <= |pids|
      invariant graph.State() == AfterTermination(s0, pids[..i])
      invariant gone == Terminated(s0, pids[..i]) && terminated == |gone|
      invariant res.actions == LoggedAll(res0.actions, TerminationLog(gone, TerminateAll))
      invariant res == res0.(actions := res.actions)
    {
      var pid := pids[i];
      TerminationSnoc(s0, pids, i);
      var removed := TerminateProcess(graph, pid);
      assert graph.State() == AfterTermination(s0, pids[..i + 1]);
      if removed {
        TerminationLogSnoc(res0.actions, gone, pid, TerminateAll);
        res := res.(actions := Logged(res.actions, RecoveryAction(pid, -1, TerminateAll, true)));
        terminated := terminated + 1;
        gone := gone + [pid];
      }
      i := i + 1;
    }
    assert pids[..|pids|] == pids;
    res := res.(processesTerminated := terminated, success := terminated > 0);
    ok := res.success;
  }

  /** What terminate-one writes into the result it is given after removing v,
      which held `released` units. */
  function TerminateOneRecord(res0: RecoveryResult, v: int, released: int): (res: RecoveryResult)
    ensures res.success && res.processesTerminated == 1 && res.resourcesPreempted == released
    ensures res.iterations == res0.iterations
    ensures |res0.actions| < MaxProcesses ==> res.actions == res0.actions + [RecoveryAction(v, -1, TerminateOne, true)]
    ensures |res0.actions| >= MaxProcesses ==> res.actions == res0.actions
  {
    res0.(actions := Logged(res0.actions, RecoveryAction(v, -1, TerminateOne, true)),
          processesTerminated := 1, resourcesPreempted := released, success := true)
  }

  /** The action the iterative loop copies out of one round's result: the first one logged. */
  function FirstAction(res: RecoveryResult): (a: Option<RecoveryAction>)
    ensures a.Some? <==> |res.actions| > 0
    ensures a.Some? ==> a.value == res.actions[0]
  {
    if |res.actions| > 0 then Some(res.actions[0]) else None
  }

  /** As written, the iterative loop hands terminate-one a result it never
      initialised: whatever that memory holds as its first action is copied,
      not the termination just performed. */
  lemma UninitialisedRoundCopiesStaleAction(res0: RecoveryResult, v: int, released: int)
    requires |res0.actions| > 0
    ensures FirstAction(TerminateOneRecord(res0, v, released)) == Some(res0.actions[0])
    ensures var stale := RecoveryResult(false, [RecoveryAction(5, 2, Rollback, false)], 0, 0, 0);
      FirstAction(TerminateOneRecord(stale, 0, 1)) != Some(RecoveryAction(0, -1, TerminateOne, true))
  {
  }

  /** With the round's result initialised first, the copied action is the
      termination of the victim. */
  lemma InitialisedRoundCopiesVictim(v: int, released: int)
    ensures FirstAction(TerminateOneRecord(InitRecovery(), v, released)) == Some(RecoveryAction(v, -1, TerminateOne, true))
  {
  }

  /** recovery_terminate_one: the selected victim is released and removed. */
  method TerminateOneProcess(graph: Graph, deadlock: DeadlockResult, criteria: SelectionCriteria, res0: RecoveryResult)
    returns (ok: bool, res: RecoveryResult)
    requires graph.Valid() && Listed(deadlock.deadlockedProcesses)
    modifies graph
    ensures graph.Valid()
    ensures var s := old(graph.State());
      var v := VictimOf(s, deadlock.deadlockedProcesses, criteria);
      ok == (v != -1) &&
      (ok ==> graph.State() == RemoveProcessAt(s, v) && res == TerminateOneRecord(res0, v, Sum(s.assignment[v]))) &&
      (!ok ==> graph.State() == s && res == res0)
  {
    res := res0;
    ghost var s0 := graph.State();
    var victim := SelectVictim(graph.State(), deadlock.deadlockedProcesses, criteria);
    if victim < 0 {
      return false, res;
    }
    var p := graph.GetProcess(victim);
    if p.None? {
      return false, res;
    }
    res := res.(actions := Logged(res.actions, RecoveryAction(victim, -1, TerminateOne, true)));
    var released := graph.ReleaseAll(victim);
    var _ := graph.RemoveProcess(victim);
    ReleaseThenRemove(s0, victim);
    res := res.(processesTerminated := 1, resourcesPreempted := released, success := true);
    ok := true;
  }

  /** The ids a detection reports lie in the process table. */
  lemma DetectionListed(deadlock: DeadlockResult)
    requires forall q :: q in deadlock.deadlockedProcesses <==>
               0 <= q < MaxProcesses && CycleNode(q, ProcessNode) in NodesOf(deadlock.cycles)
    ensures Listed(deadlock.deadlockedProcesses)
  {
    var pids := deadlock.deadlockedProcesses;
    forall j | 0 <= j < |pids|
      ensures 0 <= pids[j] < MaxProcesses
    {
      assert pids[j] in pids;
    }
  }

  /** A detected deadlock always offers a victim: the reported cycle is a closed
      walk, one end of its closing edge is an active process, and that process
      is among the deadlocked ones. */
  lemma DeadlockHasVictim(g: RagState, deadlock: DeadlockResult, c: SelectionCriteria)
    requires Shaped(g) && |deadlock.cycles| >= 1 && ClosedWalk(g, deadlock.cycles[0].nodes)
    requires forall q :: q in deadlock.deadlockedProcesses <==>
               0 <= q < MaxProcesses && CycleNode(q, ProcessNode) in NodesOf(deadlock.cycles)
    ensures Listed(deadlock.deadlockedProcesses)
    ensures VictimOf(g, deadlock.deadlockedProcesses, c) != -1
  {
    var pids := deadlock.deadlockedProcesses;
    DetectionListed(deadlock);
    var nodes := deadlock.cycles[0].nodes;
    var u, v := nodes[|nodes| - 1], nodes[0];
    assert Edge(g, u, v);
    var x := if u.kind == ProcessNode then u else v;
    assert x in deadlock.cycles[0].nodes;
    assert x in NodesOf(deadlock.cycles);
    assert x.id in pids;
    var j :| 0 <= j < |pids| && pids[j] == x.id;
    VictimIsFirstBest(g, pids, c);
  }

  /** One round of the iterative loop: detect; if there is a deadlock, remove
      one victim (selected from a freshly initialised result) and fold that
      round's record into the running result. The ghost detection is the
      round's own detect_deadlock result, and the victim is its choice. */
  method TerminationRound(graph: Graph, criteria: SelectionCriteria, res0: RecoveryResult)
    returns (resolved: bool, ghost victim: int, ghost detection: DeadlockResult, res: RecoveryResult)
    requires graph.Valid()
    modifies graph
    ensures graph.Valid()
    ensures resolved == !HasCycle(old(graph.State()))
    ensures resolved ==> graph.State() == old(graph.State()) && res == res0
    ensures !resolved ==>
      DetectionOf(old(graph.State()), detection) && detection.deadlockDetected &&
      Listed(detection.deadlockedProcesses) &&
      victim == VictimOf(old(graph.State()), detection.deadlockedProcesses, criteria) &&
      0 <= victim < MaxProcesses && IsLiveProcess(old(graph.State()), victim) &&
      graph.State().processCount == old(graph.State()).processCount - 1 &&
      graph.State() == RemoveProcessAt(old(graph.State()), victim) &&
      res == res0.(actions := Logged(res0.actions, RecoveryAction(victim, -1, TerminateOne, true)),
                   processesTerminated := res0.processesTerminated + 1,
                   resourcesPreempted := res0.resourcesPreempted + Sum(old(graph.State()).assignment[victim]))
  {
    res := res0;
    var detected, found := DetectDeadlock(graph.State());
    detection := found;
    if !detected {
      return true, -1, detection, res;
    }
    DeadlockHasVictim(graph.State(), found, criteria);
    victim, res := TerminateAndAccumulate(graph, found, criteria, res0);
    resolved := false;
  }

  /** The rest of a round once a deadlock is found: the victim is terminated
      through a fresh single-round result, and that result's first action and
      counts are added to the running result. */
  method TerminateAndAccumulate(graph: Graph, deadlock: DeadlockResult, criteria: SelectionCriteria, res0: RecoveryResult)
    returns (ghost victim: int, res: RecoveryResult)
    requires graph.Valid() && Listed(deadlock.deadlockedProcesses)
    requires VictimOf(graph.State(), deadlock.deadlockedProcesses, criteria) != -1
    modifies graph
    ensures graph.Valid()
    ensures victim == VictimOf(old(graph.State()), deadlock.deadlockedProcesses, criteria)
    ensures 0 <= victim < MaxProcesses && IsLiveProcess(old(graph.State()), victim)
    ensures graph.State().processCount == old(graph.State()).processCount - 1
    ensures graph.State() == RemoveProcessAt(old(graph.State()), victim)
    ensures res == res0.(actions := Logged(res0.actions, RecoveryAction(victim, -1, TerminateOne, true)),
                         processesTerminated := res0.processesTerminated + 1,
                         resourcesPreempted := res0.resourcesPreempted + Sum(old(graph.State()).assignment[victim]))
  {
    ghost var s0 := graph.State();
    victim := VictimOf(s0, deadlock.deadlockedProcesses, criteria);
    var done, single := TerminateOneProcess(graph, deadlock, criteria, InitRecovery());
    // The victim-selection failure branch of the C loop cannot be taken.
    assert single.success;
    InitialisedRoundCopiesVictim(victim, Sum(s0.assignment[victim]));
    res := res0;
    if |res.actions| < MaxProcesses && |single.actions| > 0 {
      res := res.(actions := res.actions + [single.actions[0]]);
    }
    res := res.(processesTerminated := res.processesTerminated + single.processesTerminated,
                resourcesPreempted := res.resourcesPreempted + single.resourcesPreempted);
    RemoveProcessEffect(s0, victim);
  }

  /** One removal: v is live in s, and removing it gives t. */
  ghost predicate RemovalStep(s: RagState, v: int, t: RagState)
  {
    Shaped(s) && IsLiveProcess(s, v) && t == RemoveProcessAt(s, v)
  }

  /** One choice: detect_deadlock on s gives d, which reports a deadlock, and v
      is the victim selected from its processes. */
  ghost predicate ChosenStep(s: RagState, d: DeadlockResult, v: int, c: SelectionCriteria)
  {
    && Shaped(s) && DetectionOf(s, d) && d.deadlockDetected
    && Listed(d.deadlockedProcesses) && v == VictimOf(s, d.deadlockedProcesses, c)
  }

  /** Successive removals: each victims[k] is live in states[k], and removing
      it gives states[k + 1]. */
  ghost predicate Removals(states: seq<RagState>, victims: seq<int>)
  {
    && |states| == |victims| + 1 && Listed(victims)
    && (forall k :: 0 <= k < |states| ==> Shaped(states[k]))
    && forall k :: 0 <= k < |victims| ==> RemovalStep(states[k], victims[k], states[k + 1])
  }

  /** The rounds of the iterative loop: in round k, detect_deadlock on states[k]
      reports a deadlock, victims[k] is the victim selected from it, and
      removing that process gives states[k + 1]. */
  ghost predicate TerminationRounds(states: seq<RagState>, victims: seq<int>,
                                    detections: seq<DeadlockResult>, c: SelectionCriteria)
  {
    && Removals(states, victims) && |detections| == |victims|
    && forall k :: 0 <= k < |victims| ==> ChosenStep(states[k], detections[k], victims[k], c)
  }

  /** The units the victims held when they were removed, summed over the rounds. */
  ghost function UnitsFreed(states: seq<RagState>, victims: seq<int>): int
    requires |states| == |victims| + 1 && Listed(victims)
    requires forall k :: 0 <= k < |victims| ==> Shaped(states[k])
    decreases |victims|
  {
    if |victims| == 0 then 0
    else
      var n := |victims| - 1;
      assert Shaped(states[n]) && 0 <= victims[n] < MaxProcesses;
      UnitsFreed(states[..n + 1], victims[..n]) + Sum(states[n].assignment[victims[n]])
  }

  /** The first n removals are removals too. */
  lemma RemovalsPrefix(states: seq<RagState>, victims: seq<int>, n: int)
    requires Removals(states, victims) && 0 <= n <= |victims|
    ensures Removals(states[..n + 1], victims[..n])
  {
  }

  /** Successive removals of live processes are what terminate-all does given
      the same ids in order: the final graph is that one, and every id is
      removed, each once. */
  lemma {:induction false} RemovalsAreTermination(states: seq<RagState>, victims: seq<int>)
    requires Removals(states, victims) && Inv(states[0])
    ensures states[|victims|] == AfterTermination(states[0], victims)
    ensures Terminated(states[0], victims) == victims
  {
    if |victims| > 0 {
      var n := |victims| - 1;
      var init := victims[..n];
      RemovalsPrefix(states, victims, n);
      RemovalsAreTermination(states[..n + 1], init);
      var s, v := states[0], victims[n];
      var u := AfterTermination(s, init);
      assert u == states[n] && RemovalStep(u, v, states[n + 1]);
      assert victims == init + [v];
      assert AfterTermination(s, victims) == RemoveProcessAt(u, v);
    }
  }

  /** One more round: a detected deadlock on the last graph, its victim, and the
      graph without it extend the rounds, and the victim's holdings the units freed. */
  lemma RoundsSnoc(states: seq<RagState>, victims: seq<int>, detections: seq<DeadlockResult>,
                   c: SelectionCriteria, d: DeadlockResult, v: int, t: RagState)
    requires TerminationRounds(states, victims, detections, c) && Shaped(t)
    requires ChosenStep(states[|victims|], d, v, c) && RemovalStep(states[|victims|], v, t)
    ensures TerminationRounds(states + [t], victims + [v], detections + [d], c)
    ensures UnitsFreed(states + [t], victims + [v]) == UnitsFreed(states, victims) + Sum(states[|victims|].assignment[v])
  {
    RemovalsSnoc(states, victims, v, t);
  }

  /** One more removal extends the removals, and the units freed by the victim's holdings. */
  lemma RemovalsSnoc(states: seq<RagState>, victims: seq<int>, v: int, t: RagState)
    requires Removals(states, victims) && Shaped(t) && RemovalStep(states[|victims|], v, t)
    ensures Removals(states + [t], victims + [v])
    ensures UnitsFreed(states + [t], victims + [v]) == UnitsFreed(states, victims) + Sum(states[|victims|].assignment[v])
  {
    var states', victims' := states + [t], victims + [v];
    assert states'[..|victims| + 1] == states && victims'[..|victims|] == victims;
  }

  /** After the removals, every victim is gone, no process was removed twice,
      every other process keeps its slot and its edges, and the live count
      is down by the number of victims. */
  lemma RemovalsSpareSurvivors(states: seq<RagState>, victims: seq<int>)
    requires Removals(states, victims) && Inv(states[0])
    ensures var s, t := states[0], states[|victims|];
      (forall x :: x in victims ==> !IsLiveProcess(t, x)) &&
      Distinct(victims) &&
      (forall q :: 0 <= q < MaxProcesses && q !in victims ==>
         t.processes[q] == s.processes[q] && t.request[q] == s.request[q] && t.assignment[q] == s.assignment[q]) &&
      t.processCount == s.processCount - |victims|
  {
    RemovalsAreTermination(states, victims);
    TerminationEffect(states[0], victims);
  }

  /** The running result after the rounds: one termination and one log entry
      per victim, and the units the victims held. */
  ghost predicate RoundsRecorded(res: RecoveryResult, states: seq<RagState>, victims: seq<int>,
                                 detections: seq<DeadlockResult>, c: SelectionCriteria)
  {
    && TerminationRounds(states, victims, detections, c)
    && res.processesTerminated == |victims|
    && res.actions == LoggedAll([], TerminationLog(victims, TerminateOne))
    && res.resourcesPreempted == UnitsFreed(states, victims)
  }

  /** What a round that found a deadlock reports is one choice and one removal. */
  lemma RoundChoice(s: RagState, d: DeadlockResult, v: int, c: SelectionCriteria, t: RagState)
    requires Shaped(s) && Shaped(t)
    requires DetectionOf(s, d) && d.deadlockDetected && Listed(d.deadlockedProcesses)
    requires v == VictimOf(s, d.deadlockedProcesses, c) && 0 <= v < MaxProcesses && IsLiveProcess(s, v)
    requires t == RemoveProcessAt(s, v)
    ensures ChosenStep(s, d, v, c) && RemovalStep(s, v, t)
  {
  }

  /** A round that removed a victim extends the record by it. */
  lemma RecordedSnoc(res0: RecoveryResult, res: RecoveryResult, states: seq<RagState>, victims: seq<int>,
                     detections: seq<DeadlockResult>, c: SelectionCriteria, d: DeadlockResult, v: int, t: RagState)
    requires RoundsRecorded(res0, states, victims, detections, c) && Shaped(t)
    requires ChosenStep(states[|victims|], d, v, c) && RemovalStep(states[|victims|], v, t)
    requires var s := states[|victims|];
      res == res0.(actions := Logged(res0.actions, RecoveryAction(v, -1, TerminateOne, true)),
                   processesTerminated := res0.processesTerminated + 1,
                   resourcesPreempted := res0.resourcesPreempted + Sum(s.assignment[v]))
    ensures RoundsRecorded(res, states + [t], victims + [v], detections + [d], c)
  {
    TerminationLogSnoc([], victims, v, TerminateOne);
    RoundsSnoc(states, victims, detections, c, d, v, t);
  }

  /** A round of the iterative loop together with its record: when it removes
      a victim, the rounds and the running result are extended by it. */
  method RecordedRound(graph: Graph, criteria: SelectionCriteria, res0: RecoveryResult,
                       ghost states0: seq<RagState>, ghost victims0: seq<int>, ghost detections0: seq<DeadlockResult>)
    returns (resolved: bool, res: RecoveryResult,
             ghost states: seq<RagState>, ghost victims: seq<int>, ghost detections: seq<DeadlockResult>)
    requires graph.Valid() && RoundsRecorded(res0, states0, victims0, detections0, criteria)
    requires states0[|victims0|] == graph.State()
    modifies graph
    ensures graph.Valid()
    ensures resolved == !HasCycle(old(graph.State()))
    ensures res.success == res0.success && res.iterations == res0.iterations
    ensures resolved ==> graph.State() == old(graph.State()) && res == res0 &&
                         states == states0 && victims == victims0 && detections == detections0
    ensures !resolved ==> graph.processCount == old(graph.processCount) - 1 && |victims| == |victims0| + 1
    ensures RoundsRecorded(res, states, victims, detections, criteria) && states[|victims|] == graph.State()
    ensures states[0] == states0[0]
  {
    ghost var victim, detection;
    resolved, victim, detection, res := TerminationRound(graph, criteria, res0);
    states, victims, detections := states0, victims0, detections0;
    if resolved {
      return;
    }
    RoundChoice(old(graph.State()), detection, victim, criteria, graph.State());
    RecordedSnoc(res0, res, states, victims, detections, criteria, detection, victim, graph.State());
    states, victims, detections := states + [graph.State()], victims + [victim], detections + [detection];
  }

  /** The loop of recovery_terminate_iterative: rounds until one finds no
      deadlock (resolved) or the budget (0 = none) is spent. Each round
      removes a live process, so the loop ends even without a budget. */
  method TerminationLoop(graph: Graph, criteria: SelectionCriteria, maxIterations: int)
    returns (resolved: bool, iterations: int, res: RecoveryResult,
             ghost states: seq<RagState>, ghost victims: seq<int>, ghost detections: seq<DeadlockResult>)
    requires graph.Valid()
    modifies graph
    ensures graph.Valid()
    ensures iterations == |victims|
    ensures RoundsRecorded(res, states, victims, detections, criteria)
    ensures states[0] == old(graph.State()) && states[|victims|] == graph.State()
    ensures res.iterations == 0 && !res.success
    ensures resolved ==> !HasCycle(graph.State())
    ensures maxIterations > 0 ==> |victims| <= maxIterations
    ensures maxIterations == 0 ==> resolved
    ensures maxIterations < 0 ==> !resolved && victims == []
    ensures !resolved && maxIterations > 0 ==> |victims| == maxIterations
  {
    res := InitRecovery();
    states, victims, detections := [graph.State()], [], [];
    assert UnitsFreed(states, victims) == 0;
    iterations := 0;
    resolved := false;
    while iterations < maxIterations || maxIterations == 0
      invariant graph.Valid()
      invariant 0 <= iterations && (maxIterations > 0 ==> iterations <= maxIterations)
      invariant maxIterations < 0 ==> iterations == 0
      invariant !resolved
      invariant RoundsRecorded(res, states, victims, detections, criteria)
      invariant states[0] == old(graph.State()) && states[|victims|] == graph.State()
      invariant |victims| == iterations && res.iterations == 0 && !res.success
      invariant graph.processCount == old(graph.processCount) - iterations
      decreases graph.processCount
    {
      resolved, res, states, victims, detections := RecordedRound(graph, criteria, res, states, victims, detections);
      if resolved {
        return;
      }
      iterations := iterations + 1;
      // The source's break on reaching a positive budget is the loop
      // condition failing at the same point.
    }
  }

  /** recovery_terminate_iterative: the loop, then, unless a round already found
      the graph deadlock-free, one final detection decides success. The ghost
      results are the rounds: the graph before each, the victim chosen and the
      detection it was chosen from. */
  method TerminateIterative(graph: Graph, criteria: SelectionCriteria, maxIterations: int)
    returns (ok: bool, res: RecoveryResult,
             ghost states: seq<RagState>, ghost victims: seq<int>, ghost detections: seq<DeadlockResult>)
    requires graph.Valid()
    modifies graph
    ensures graph.Valid()
    ensures TerminationRounds(states, victims, detections, criteria)
    ensures states[0] == old(graph.State()) && states[|victims|] == graph.State()
    ensures ok == res.success && (ok <==> !HasCycle(graph.State()))
    ensures res.processesTerminated == |victims| && res.iterations == |victims|
    ensures maxIterations > 0 ==> |victims| <= maxIterations
    ensures maxIterations < 0 ==> victims == []
    ensures maxIterations == 0 ==> ok
    ensures res.actions == LoggedAll([], TerminationLog(victims, TerminateOne))
    ensures res.resourcesPreempted == UnitsFreed(states, victims)
  {
    var resolved, iterations;
    resolved, iterations, res, states, victims, detections := TerminationLoop(graph, criteria, maxIterations);
    if resolved {
      res := res.(success := true, iterations := iterations);
      return true, res, states, victims, detections;
    }
    var detected, _ := DetectDeadlock(graph.State());
    res := res.(success := !detected, iterations := iterations);
    ok := res.success;
  }

  /** One more listed resource: released (and recorded) exactly when p still holds a unit of it. */
  lemma ReleaseEachSnoc(s: RagState, p: int, rids: seq<int>, i: int)
    requires Inv(s) && 0 <= p < MaxProcesses && 0 <= i < |rids|
    ensures var u := ReleaseEach(s, p, rids[..i]);
      ReleaseEach(s, p, rids[..i + 1]) == (if CanRelease(u, p, rids[i]) then ReleaseUnit(u, p, rids[i]) else u) &&
      ReleasedIds(s, p, rids[..i + 1]) ==
        ReleasedIds(s, p, rids[..i]) + (if CanRelease(u, p, rids[i]) then [rids[i]] else [])
  {
    assert rids[..i + 1][..i] == rids[..i];
  }

  lemma PreemptionLogSnoc(actions: seq<RecoveryAction>, freed: seq<int>, p: int, r: int)
    ensures LoggedAll(actions, PreemptionLog(p, freed + [r])) ==
            Logged(LoggedAll(actions, PreemptionLog(p, freed)), RecoveryAction(p, r, PreemptResources, true))
  {
    assert PreemptionLog(p, freed + [r])[..|freed|] == PreemptionLog(p, freed);
  }

  /** The loop of the preemption strategy over an explicit resource list. */
  method PreemptListed(graph: Graph, p: int, rids: seq<int>, res0: RecoveryResult)
    returns (preempted: int, res: RecoveryResult)
    requires graph.Valid() && 0 <= p < MaxProcesses
    modifies graph
    ensures graph.Valid()
    ensures preempted == |ReleasedIds(old(graph.State()), p, rids)|
    ensures graph.State() == ReleaseEach(old(graph.State()), p, rids)
    ensures res == res0.(actions := LoggedAll(res0.actions, PreemptionLog(p, ReleasedIds(old(graph.State()), p, rids))))
  {
    ghost var s0 := graph.State();
    ghost var freed: seq<int> := [];
    res := res0;
    preempted := 0;
    var i := 0;
    while i < |rids|
      invariant 0 <= i <= |rids|
      invariant graph.State() == ReleaseEach(s0, p, rids[..i])
      invariant freed == ReleasedIds(s0, p, rids[..i]) && preempted == |freed|
      invariant res.actions == LoggedAll(res0.actions, PreemptionLog(p, freed))
      invariant res == res0.(actions := res.actions)
    {
      var rid := rids[i];
      ReleaseEachSnoc(s0, p, rids, i);
      var released := graph.ReleaseResource(p, rid);
      if released {
        PreemptionLogSnoc(res0.actions, freed, p, rid);
        freed := freed + [rid];
        preempted := preempted + 1;
        res := res.(actions := Logged(res.actions, RecoveryAction(p, rid, PreemptResources, true)));
      }
      i := i + 1;
    }
    assert rids[..|rids|] == rids;
  }

  /** recovery_preempt_resources: one unit of each listed resource, or (for an
      empty list) everything p holds, is taken back; p is then blocked. */
  method PreemptProcessResources(graph: Graph, p: int, rids: seq<int>, res0: RecoveryResult)
    returns (preempted: int, res: RecoveryResult)
    requires graph.Valid()
    modifies graph
    ensures graph.Valid()
    ensures var s := old(graph.State());
      !IsLiveProcess(s, p) ==> preempted == 0 && graph.State() == s && res == res0
    ensures var s := old(graph.State());
      IsLiveProcess(s, p) && |rids| == 0 ==>
        preempted == Sum(s.assignment[p]) &&
        graph.State() == WithProcessState(ReleaseAllOf(s, p), p, Blocked) &&
        res == res0.(actions := Logged(res0.actions, RecoveryAction(p, -1, PreemptResources, true)),
                     resourcesPreempted := res0.resourcesPreempted + preempted)
    ensures var s := old(graph.State());
      IsLiveProcess(s, p) && |rids| > 0 ==>
        var freed := ReleasedIds(s, p, rids);
        preempted == |freed| &&
        graph.State() == WithProcessState(ReleaseEach(s, p, rids), p, Blocked) &&
        res == res0.(actions := LoggedAll(res0.actions, PreemptionLog(p, freed)),
                     resourcesPreempted := res0.resourcesPreempted + preempted)
  {
    res := res0;
    if p < 0 || p >= MaxProcesses {
      return 0, res;
    }
    var proc := graph.GetProcess(p);
    if proc.None? {
      return 0, res;
    }
    ghost var s0 := graph.State();
    if |rids| > 0 {
      preempted, res := PreemptListed(graph, p, rids, res);
    } else {
      preempted := graph.ReleaseAll(p);
      res := res.(actions := Logged(res.actions, RecoveryAction(p, -1, PreemptResources, true)));
    }
    res := res.(resourcesPreempted := res.resourcesPreempted + preempted);
    ReleaseEachEffect(s0, p, rids);
    var _ := graph.SetProcessState(p, Blocked);
  }

  /** recovery_rollback_process. */
  method RollbackProcess(graph: Graph, p: int, res0: RecoveryResult) returns (ok: bool, res: RecoveryResult)
    requires graph.Valid()
    modifies graph
    ensures graph.Valid()
    ensures var s := old(graph.State());
      ok == IsLiveProcess(s, p) &&
      (ok ==> graph.State() == RolledBack(s, p) &&
              res == res0.(actions := Logged(res0.actions, RecoveryAction(p, -1, Rollback, true)),
                           resourcesPreempted := res0.resourcesPreempted + Sum(s.assignment[p]), success := true)) &&
      (!ok ==> graph.State() == s && res == res0)
  {
    res := res0;
    if p < 0 || p >= MaxProcesses {
      return false, res;
    }
    var proc := graph.GetProcess(p);
    if proc.None? {
      return false, res;
    }
    ghost var s0 := graph.State();
    var released := graph.ReleaseAll(p);
    ghost var t := graph.State();
    assert ZeroPrefix(t.request[p], 0) == t.request[p];
    var r := 0;
    while r < MaxResources
      invariant 0 <= r <= MaxResources
      invariant graph.Valid()
      invariant graph.requestMatrix == t.request[p := ZeroPrefix(t.request[p], r)]
      invariant graph.assignmentMatrix == t.assignment && graph.resources == t.resources
      invariant graph.processCount == t.processCount && graph.resourceCount == t.resourceCount
      invariant graph.processes == t.processes[p := t.processes[p].(state := graph.processes[p].state)]
    {
      var _ := graph.CancelRequest(p, r);
      assert graph.requestMatrix[p] == ZeroPrefix(t.request[p], r + 1);
      r := r + 1;
    }
    assert ZeroPrefix(t.request[p], MaxResources) == Zeros(MaxResources);
    var _ := graph.SetProcessState(p, Running);
    assert graph.State() == RolledBack(s0, p);
    res := res.(actions := Logged(res.actions, RecoveryAction(p, -1, Rollback, true)),
                resourcesPreempted := res.resourcesPreempted + released, success := true);
    ok := true;
  }

  /** What recover_from_deadlock does, for graph state s, deadlock report d and
      configuration c: ok is its answer and t the graph it leaves. */
  ghost predicate RecoveryOutcome(s: RagState, d: DeadlockResult, c: RecoveryConfig, ok: bool, t: RagState)
    requires Inv(s) && Listed(d.deadlockedProcesses)
  {
    var v := VictimOf(s, d.deadlockedProcesses, c.selection);
    && (!d.deadlockDetected ==> ok && t == s)
    && (d.deadlockDetected && StrategyOf(c.strategy).None? ==> !ok && t == s)
    && (d.deadlockDetected && StrategyOf(c.strategy) == Some(TerminateAll) ==>
          t == AfterTermination(s, d.deadlockedProcesses) &&
          ok == (|Terminated(s, d.deadlockedProcesses)| > 0))
    && (d.deadlockDetected &&
        StrategyOf(c.strategy) in {Some(TerminateOne), Some(TerminateLowest), Some(TerminateYoungest), Some(TerminateOldest)} ==>
          ok == (v != -1) && t == (if ok then RemoveProcessAt(s, v) else s))
    && (d.deadlockDetected && StrategyOf(c.strategy) == Some(PreemptResources) ==>
          ok == (v != -1 && Sum(s.assignment[v]) > 0) &&
          t == (if v != -1 then WithProcessState(ReleaseAllOf(s, v), v, Blocked) else s))
    && (d.deadlockDetected && StrategyOf(c.strategy) == Some(Rollback) ==>
          ok == (v != -1) && t == (if ok then RolledBack(s, v) else s))
  }

  /** recover_from_deadlock: a fresh result, then the configured strategy; the
      preemption and rollback strategies act on the selected victim. */
  method RecoverFromDeadlock(graph: Graph, deadlock: DeadlockResult, config: RecoveryConfig)
    returns (ok: bool, res: RecoveryResult)
    requires graph.Valid() && Listed(deadlock.deadlockedProcesses)
    modifies graph
    ensures graph.Valid()
    ensures ok == res.success
    ensures !deadlock.deadlockDetected ==>
              ok && graph.State() == old(graph.State()) && res == InitRecovery().(success := true)
    ensures deadlock.deadlockDetected && StrategyOf(config.strategy).None? ==>
              !ok && graph.State() == old(graph.State()) && res == InitRecovery()
    ensures deadlock.deadlockDetected && StrategyOf(config.strategy) == Some(TerminateAll) ==>
              graph.State() == AfterTermination(old(graph.State()), deadlock.deadlockedProcesses) &&
              ok == (|Terminated(old(graph.State()), deadlock.deadlockedProcesses)| > 0)
    ensures var v := VictimOf(old(graph.State()), deadlock.deadlockedProcesses, config.selection);
      deadlock.deadlockDetected &&
      StrategyOf(config.strategy) in {Some(TerminateOne), Some(TerminateLowest), Some(TerminateYoungest), Some(TerminateOldest)} ==>
        ok == (v != -1) && graph.State() == (if ok then RemoveProcessAt(old(graph.State()), v) else old(graph.State()))
    ensures var v := VictimOf(old(graph.State()), deadlock.deadlockedProcesses, config.selection);
      deadlock.deadlockDetected && StrategyOf(config.strategy) == Some(PreemptResources) ==>
        ok == (v != -1 && Sum(old(graph.State()).assignment[v]) > 0) &&
        graph.State() == (if v != -1 then WithProcessState(ReleaseAllOf(old(graph.State()), v), v, Blocked)
                          else old(graph.State()))
    ensures var v := VictimOf(old(graph.State()), deadlock.deadlockedProcesses, config.selection);
      deadlock.deadlockDetected && StrategyOf(config.strategy) == Some(Rollback) ==>
        ok == (v != -1) && graph.State() == (if ok then RolledBack(old(graph.State()), v) else old(graph.State()))
    ensures RecoveryOutcome(old(graph.State()), deadlock, config, ok, graph.State())
  {
    res := InitRecovery();
    if !deadlock.deadlockDetected {
      res := res.(success := true);
      return true, res;
    }
    match StrategyOf(config.strategy)
    case None =>
      ok := false;
    case Some(TerminateAll) =>
      ok, res := TerminateAllProcesses(graph, deadlock, res);
    case Some(PreemptResources) =>
      var victim := SelectVictim(graph.State(), deadlock.deadlockedProcesses, config.selection);
      if victim >= 0 {
        var preempted;
        preempted, res := PreemptProcessResources(graph, victim, [], res);
        res := res.(success := preempted > 0);
        ok := res.success;
      } else {
        ok := false;
      }
    case Some(Rollback) =>
      var victim := SelectVictim(graph.State(), deadlock.deadlockedProcesses, config.selection);
      if victim >= 0 {
        ok, res := RollbackProcess(graph, victim, res);
      } else {
        ok := false;
      }
    case Some(_) =>
      ok, res := TerminateOneProcess(graph, deadlock, config.selection, res);
  }

  /** recover_default: the default configuration, i.e. remove the deadlocked
      process of lowest priority (the first such one in report order). */
  method RecoverDefault(graph: Graph, deadlock: DeadlockResult) returns (ok: bool, res: RecoveryResult)
    requires graph.Valid() && Listed(deadlock.deadlockedProcesses)
    modifies graph
    ensures graph.Valid()
    ensures !deadlock.deadlockDetected ==> ok && graph.State() == old(graph.State())
    ensures var v := VictimOf(old(graph.State()), deadlock.deadlockedProcesses, LowestPriority);
      deadlock.deadlockDetected ==>
        ok == (v != -1) && graph.State() == (if ok then RemoveProcessAt(old(graph.State()), v) else old(graph.State()))
  {
    ok, res := RecoverFromDeadlock(graph, deadlock, DefaultConfig());
  }

  // ---------------------------------------------------------------------
  // Analysis and recommendation
  // ---------------------------------------------------------------------

  /** Units held by the listed processes together (a process listed twice counts twice). */
  ghost function ListedUnits(s: RagState, pids: seq<int>): int
    requires Shaped(s) && Listed(pids)
    decreases |pids|
  {
    if |pids| == 0 then 0 else ListedUnits(s, pids[..|pids| - 1]) + Sum(s.assignment[pids[|pids| - 1]])
  }

  /** In a well-formed graph the estimate is never negative, and it is zero
      exactly when no listed process holds anything. */
  lemma {:induction false} ListedUnitsZero(s: RagState, pids: seq<int>)
    requires Inv(s) && Listed(pids)
    ensures ListedUnits(s, pids) >= 0
    ensures ListedUnits(s, pids) == 0 <==>
              forall i, r :: 0 <= i < |pids| && 0 <= r < MaxResources ==> s.assignment[pids[i]][r] == 0
  {
    if |pids| > 0 {
      var n := |pids| - 1;
      ListedUnitsZero(s, pids[..n]);
      SumNonNegative(s.assignment[pids[n]]);
      assert forall i :: 0 <= i < n ==> pids[..n][i] == pids[i];
      if forall i, r :: 0 <= i < |pids| && 0 <= r < MaxResources ==> s.assignment[pids[i]][r] == 0 {
        SumOfZeros(s.assignment[pids[n]]);
      }
    }
  }

  /** analyze_recovery_option: (feasibility, estimated terminations, estimated units freed). */
  method AnalyzeRecoveryOption(g: RagState, deadlock: DeadlockResult, strategy: int)
    returns (feasibility: int, terminations: int, resources: int)
    requires Shaped(g)
    requires StrategyOf(strategy) == Some(TerminateAll) ==> Listed(deadlock.deadlockedProcesses)
    ensures StrategyOf(strategy) == Some(TerminateAll) ==>
              feasibility == 100 && terminations == |deadlock.deadlockedProcesses| &&
              resources == ListedUnits(g, deadlock.deadlockedProcesses)
    ensures StrategyOf(strategy) in {Some(TerminateOne), Some(TerminateLowest), Some(TerminateYoungest), Some(TerminateOldest)} ==>
              feasibility == 70 && terminations == 1 && resources == 0
    ensures StrategyOf(strategy) == Some(PreemptResources) ==> feasibility == 50 && terminations == 0 && resources == 1
    ensures StrategyOf(strategy) == Some(Rollback) ==> feasibility == 60 && terminations == 0 && resources == 0
    ensures StrategyOf(strategy).None? ==> feasibility == 0 && terminations == 0 && resources == 0
  {
    terminations, resources, feasibility := 0, 0, 0;
    match StrategyOf(strategy)
    case None =>
      feasibility := 0;
    case Some(TerminateAll) =>
      var pids := deadlock.deadlockedProcesses;
      terminations := |pids|;
      var i := 0;
      while i < |pids|
        invariant 0 <= i <= |pids|
        invariant resources == ListedUnits(g, pids[..i])
      {
        assert pids[..i + 1][..i] == pids[..i];
        var held := HeldUnits(g, pids[i]);
        resources := resources + held;
        i := i + 1;
      }
      assert pids[..|pids|] == pids;
      feasibility := 100;
    case Some(PreemptResources) =>
      resources := 1;
      feasibility := 50;
    case Some(Rollback) =>
      feasibility := 60;
    case Some(_) =>
      terminations := 1;
      feasibility := 70;
  }

  /** Some listed process holds more than one unit. */
  ghost predicate CanPreempt(g: RagState, pids: seq<int>)
    requires Shaped(g) && Listed(pids)
  {
    exists i :: 0 <= i < |pids| && Sum(g.assignment[pids[i]]) > 1
  }

  /** recommend_recovery_strategy. */
  method RecommendStrategy(g: RagState, deadlock: DeadlockResult) returns (s: RecoveryStrategy)
    requires Shaped(g)
    requires deadlock.deadlockDetected && |deadlock.deadlockedProcesses| > 5 ==> Listed(deadlock.deadlockedProcesses)
    ensures !deadlock.deadlockDetected ==> s == TerminateLowest
    ensures deadlock.deadlockDetected && |deadlock.deadlockedProcesses| == 1 ==> s == TerminateOne
    ensures deadlock.deadlockDetected && |deadlock.deadlockedProcesses| != 1 && |deadlock.deadlockedProcesses| <= 5 ==>
              s == TerminateLowest
    ensures deadlock.deadlockDetected && |deadlock.deadlockedProcesses| > 5 ==>
              s == if CanPreempt(g, deadlock.deadlockedProcesses) then PreemptResources else TerminateLowest
  {
    var pids := deadlock.deadlockedProcesses;
    if !deadlock.deadlockDetected {
      return TerminateLowest;
    }
    if |pids| == 1 {
      return TerminateOne;
    }
    if |pids| <= 3 {
      return TerminateLowest;
    }
    if |pids| > 5 {
      var canPreempt := false;
      var i := 0;
      while i < |pids|
        invariant 0 <= i <= |pids|
        invariant !canPreempt
        invariant forall j :: 0 <= j < i ==> Sum(g.assignment[pids[j]]) <= 1
      {
        var held := HeldUnits(g, pids[i]);
        if held > 1 {
          canPreempt := true;
          break;
        }
        i := i + 1;
      }
      if canPreempt {
        return PreemptResources;
      }
    }
    return TerminateLowest;
  }
}
