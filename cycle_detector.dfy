// The three-colour depth-first cycle detector over the two-sided
// process/resource graph. It only reads the graph, so it takes a snapshot.

module CycleDetector {
  import opened Sums
  import opened Rag

  const MaxCycleLength := 128
  const MaxCycles := 32

  datatype NodeType = ProcessNode | ResourceNode
  datatype CycleNode = CycleNode(id: int, kind: NodeType)

  /** A recorded cycle: the nodes in path order and the valid flag. */
  datatype Cycle = Cycle(nodes: seq<CycleNode>, valid: bool)

  /** The detection report; each sequence's length is the C count field. */
  datatype DeadlockResult = DeadlockResult(
    deadlockDetected: bool,
    cycles: seq<Cycle>,
    deadlockedProcesses: seq<int>,
    deadlockedResources: seq<int>)

  datatype DetectionAlgorithm = Dfs | DfsAllCycles | Banker

  datatype Color = White | Gray | Black

  function IsWhite(c: Color): bool { c == White }
  function IsGray(c: Color): bool { c == Gray }

  /** deadlock_result_init: nothing detected, every count zero. */
  function InitResult(): DeadlockResult
  {
    DeadlockResult(false, [], [], [])
  }

  // ---------------------------------------------------------------------
  // The graph seen by the detector
  // ---------------------------------------------------------------------

  ghost predicate ValidNode(n: CycleNode)
  {
    if n.kind == ProcessNode then 0 <= n.id < MaxProcesses else 0 <= n.id < MaxResources
  }

  ghost predicate Active(g: RagState, n: CycleNode)
    requires Shaped(g)
  {
    ValidNode(n) &&
    if n.kind == ProcessNode then g.processes[n.id].active else g.resources[n.id].active
  }

  /** A request (process to resource) or an assignment (resource to holder) entry,
      whatever the endpoints' active flags. */
  ghost predicate RawEdge(g: RagState, u: CycleNode, v: CycleNode)
    requires Shaped(g)
  {
    ValidNode(u) && ValidNode(v) &&
    ((u.kind == ProcessNode && v.kind == ResourceNode && g.request[u.id][v.id] > 0) ||
     (u.kind == ResourceNode && v.kind == ProcessNode && g.assignment[v.id][u.id] > 0))
  }

  /** An edge of the graph: both endpoints active. */
  ghost predicate Edge(g: RagState, u: CycleNode, v: CycleNode)
    requires Shaped(g)
  {
    RawEdge(g, u, v) && Active(g, u) && Active(g, v)
  }

  ghost predicate Walk(g: RagState, s: seq<CycleNode>)
    requires Shaped(g)
  {
    forall i, j :: 0 <= i && j == i + 1 && j < |s| ==> Edge(g, s[i], s[j])
  }

  /** A non-empty walk whose last node has an edge back to its first. */
  ghost predicate ClosedWalk(g: RagState, c: seq<CycleNode>)
    requires Shaped(g)
  {
    |c| >= 1 && Walk(g, c) && Edge(g, c[|c| - 1], c[0])
  }

  ghost predicate HasCycle(g: RagState)
    requires Shaped(g)
  {
    exists c :: ClosedWalk(g, c)
  }

  ghost predicate Distinct<T>(s: seq<T>)
  {
    forall i, j :: 0 <= i < j < |s| ==> s[i] != s[j]
  }

  /** A DFS start candidate: an active process with a pending request. */
  ghost predicate Qualifies(g: RagState, q: int)
    requires Shaped(g) && 0 <= q < MaxProcesses
  {
    g.processes[q].active && HasPositive(g.request[q])
  }

  /** Each ranked node's successors are ranked lower (finished earlier). */
  ghost predicate Closed(g: RagState, rank: map<CycleNode, nat>)
    requires Shaped(g)
  {
    forall u, v {:trigger Edge(g, u, v)} :: u in rank && Edge(g, u, v) ==> v in rank && rank[v] < rank[u]
  }

  ghost predicate CycleShaped(c: Cycle)
  {
    c.valid && 1 <= |c.nodes| <= MaxCycleLength && forall i :: 0 <= i < |c.nodes| ==> ValidNode(c.nodes[i])
  }

  /** Every node occurring in one of the cycles. */
  ghost function NodesOf(cycles: seq<Cycle>): set<CycleNode>
  {
    set c, x | 0 <= c < |cycles| && x in cycles[c].nodes :: x
  }

  /** Membership of the DFS path, named so that the gray-node clause of the DFS
      invariant is used only where a proof mentions it. */
  ghost predicate OnPath(path: seq<CycleNode>, n: CycleNode)
  {
    n in path
  }

  ghost predicate StrictlyIncreasing(s: seq<int>)
  {
    forall i, j :: 0 <= i < j < |s| ==> s[i] < s[j]
  }

  // ---------------------------------------------------------------------
  // Lemmas about walks
  // ---------------------------------------------------------------------

  lemma WalkExtend(g: RagState, s: seq<CycleNode>, n: CycleNode)
    requires Shaped(g) && Walk(g, s)
    requires |s| > 0 ==> Edge(g, s[|s| - 1], n)
    ensures Walk(g, s + [n])
  {
    var t := s + [n];
    forall i, j | 0 <= i && j == i + 1 && j < |t| ensures Edge(g, t[i], t[j]) {
      if j < |s| {
        assert t[i] == s[i] && t[j] == s[j];
      }
    }
  }

  /** The walk's tail from a node that the last node points back to is a closed walk. */
  lemma CloseWalk(g: RagState, s: seq<CycleNode>, i: int)
    requires Shaped(g) && Walk(g, s) && 0 <= i < |s|
    requires Edge(g, s[|s| - 1], s[i])
    ensures ClosedWalk(g, s[i..])
  {
    var c := s[i..];
    forall k, l | 0 <= k && l == k + 1 && l < |c| ensures Edge(g, c[k], c[l]) {
      assert c[k] == s[i + k] && c[l] == s[i + l];
    }
  }

  /** From a ranked node of a walk, every later node is ranked. */
  lemma {:induction false} WalkReachesEnd(g: RagState, rank: map<CycleNode, nat>, c: seq<CycleNode>, k: int)
    requires Shaped(g) && Closed(g, rank) && Walk(g, c) && 0 <= k < |c| && c[k] in rank
    ensures c[|c| - 1] in rank
  {
    var j := k;
    while j < |c| - 1
      invariant k <= j <= |c| - 1 && c[j] in rank
    {
      assert Edge(g, c[j], c[j + 1]);
      j := j + 1;
    }
  }

  /** Along a walk starting at a ranked node the ranks strictly fall. */
  lemma {:induction false} RankDescends(g: RagState, rank: map<CycleNode, nat>, c: seq<CycleNode>)
    requires Shaped(g) && Closed(g, rank) && Walk(g, c) && |c| >= 1 && c[0] in rank
    ensures forall i :: 0 <= i < |c| ==> c[i] in rank && rank[c[i]] + i <= rank[c[0]]
  {
    var j := 0;
    while j < |c| - 1
      invariant 0 <= j <= |c| - 1
      invariant forall i :: 0 <= i <= j ==> c[i] in rank && rank[c[i]] + i <= rank[c[0]]
    {
      assert Edge(g, c[j], c[j + 1]);
      j := j + 1;
    }
  }

  /** A ranked node lies on no closed walk. */
  lemma RankedNotOnCycle(g: RagState, rank: map<CycleNode, nat>, c: seq<CycleNode>, x: CycleNode)
    requires Shaped(g) && Closed(g, rank) && x in rank && ClosedWalk(g, c)
    ensures x !in c
  {
    if k :| 0 <= k < |c| && c[k] == x {
      WalkReachesEnd(g, rank, c, k);
      RankDescends(g, rank, c);
    }
  }

  /** If every start candidate is ranked and ranks fall along edges, there is no cycle. */
  lemma NoCycleWhenAllRanked(g: RagState, rank: map<CycleNode, nat>)
    requires Shaped(g) && Closed(g, rank)
    requires forall q :: 0 <= q < MaxProcesses && Qualifies(g, q) ==> CycleNode(q, ProcessNode) in rank
    ensures !HasCycle(g)
  {
    if c: seq<CycleNode> :| ClosedWalk(g, c) {
      var k := StartCandidateOn(g, c);
      RankedNotOnCycle(g, rank, c, c[k]);
    }
  }

  /** Every closed walk passes through a process with a pending request. */
  lemma StartCandidateOn(g: RagState, c: seq<CycleNode>) returns (k: int)
    requires Shaped(g) && ClosedWalk(g, c)
    ensures 0 <= k < |c| && c[k].kind == ProcessNode && 0 <= c[k].id < MaxProcesses
    ensures Qualifies(g, c[k].id)
  {
    var n := |c|;
    var succ0 := if n == 1 then c[0] else c[1];
    assert Edge(g, c[0], succ0);
    if c[0].kind == ProcessNode {
      k := 0;
      assert g.request[c[0].id][succ0.id] > 0;
    } else {
      k := 1;
      var succ1 := if n == 2 then c[0] else c[2];
      assert Edge(g, c[1], succ1);
      assert g.request[c[1].id][succ1.id] > 0;
    }
  }

  // ---------------------------------------------------------------------
  // The DFS state and its two mutually recursive visits
  // ---------------------------------------------------------------------

  class DfsState {
    const g: RagState
    var processColors: seq<Color>
    var resourceColors: seq<Color>
    /** The gray nodes in visiting order (the C path array up to path_length). */
    var path: seq<CycleNode>
    var cycleFound: bool
    var output: Cycle
    /** Finishing order of the black nodes, for the completeness argument. */
    ghost var rank: map<CycleNode, nat>
    ghost var clock: nat

    ghost function ColorOf(n: CycleNode): Color
      reads this
      requires |processColors| == MaxProcesses && |resourceColors| == MaxResources
      requires ValidNode(n)
    {
      if n.kind == ProcessNode then processColors[n.id] else resourceColors[n.id]
    }

    ghost function WhiteCount(): nat
      reads this
    {
      CountWhere(processColors, IsWhite) + CountWhere(resourceColors, IsWhite)
    }

    ghost function GrayCount(): nat
      reads this
    {
      CountWhere(processColors, IsGray) + CountWhere(resourceColors, IsGray)
    }

    ghost predicate Valid()
      reads this
    {
      Shaped(g) &&
      |processColors| == MaxProcesses && |resourceColors| == MaxResources &&
      |path| <= MaxCycleLength &&
      (forall i :: 0 <= i < |path| ==> Active(g, path[i])) &&
      Distinct(path) &&
      (forall i :: 0 <= i < |path| ==> ColorOf(path[i]) == Gray) &&
      (forall n {:trigger OnPath(path, n)} :: ValidNode(n) && ColorOf(n) == Gray ==> OnPath(path, n)) &&
      (forall n :: ValidNode(n) ==> (ColorOf(n) == Black <==> n in rank)) &&
      (forall n :: n in rank ==> ValidNode(n) && rank[n] < clock) &&
      Closed(g, rank) &&
      |path| == GrayCount()
    }

    /** init_dfs_state: every node white, empty path, no cycle. */
    constructor (graph: RagState, out: Cycle)
      requires Shaped(graph)
      ensures Valid() && g == graph && output == out
      ensures path == [] && !cycleFound && rank == map[]
      ensures forall p :: 0 <= p < MaxProcesses ==> processColors[p] == White
      ensures WhiteCount() == MaxProcesses + MaxResources
    {
      g := graph;
      processColors := seq(MaxProcesses, _ => White);
      resourceColors := seq(MaxResources, _ => White);
      path := [];
      cycleFound := false;
      output := out;
      rank := map[];
      clock := 0;
      new;
      CountWhereNone(processColors, IsGray);
      CountWhereNone(resourceColors, IsGray);
      CountAllWhite(processColors);
      CountAllWhite(resourceColors);
    }

    /** The reset between two searches of the all-cycles mode: the output is
        marked invalid and the found flag cleared; colours and path stay. */
    method ClearFound()
      requires Valid()
      modifies this`output, this`cycleFound
      ensures Valid() && !cycleFound && output == Cycle(old(output).nodes, false)
    {
      output := Cycle(output.nodes, false);
      cycleFound := false;
    }

    /** Sets one node's colour, keeping the white and gray counts in step. */
    method Paint(n: CycleNode, c: Color)
      requires |processColors| == MaxProcesses && |resourceColors| == MaxResources && ValidNode(n)
      modifies this
      ensures |processColors| == MaxProcesses && |resourceColors| == MaxResources
      ensures ColorOf(n) == c
      ensures forall m :: ValidNode(m) && m != n ==> ColorOf(m) == old(ColorOf(m))
      ensures WhiteCount() == old(WhiteCount()) - (if old(ColorOf(n)) == White then 1 else 0) + (if c == White then 1 else 0)
      ensures GrayCount() == old(GrayCount()) - (if old(ColorOf(n)) == Gray then 1 else 0) + (if c == Gray then 1 else 0)
      ensures path == old(path) && rank == old(rank) && clock == old(clock)
      ensures output == old(output) && cycleFound == old(cycleFound)
    {
      if n.kind == ProcessNode {
        CountWhereUpdate(processColors, IsWhite, n.id, c);
        CountWhereUpdate(processColors, IsGray, n.id, c);
        processColors := processColors[n.id := c];
      } else {
        CountWhereUpdate(resourceColors, IsWhite, n.id, c);
        CountWhereUpdate(resourceColors, IsGray, n.id, c);
        resourceColors := resourceColors[n.id := c];
      }
    }

    /** Marks a white node gray and pushes it on the path. */
    method MarkAndPush(n: CycleNode)
      requires Valid() && Active(g, n) && ColorOf(n) == White
      modifies this
      ensures Valid()
      ensures path == old(path) + [n]
      ensures rank == old(rank) && output == old(output) && cycleFound == old(cycleFound)
      ensures WhiteCount() + 1 == old(WhiteCount())
    {
      CountWhereDisjoint(processColors, IsWhite, IsGray);
      CountWhereDisjoint(resourceColors, IsWhite, IsGray);
      if n.kind == ProcessNode {
        CountWherePositive(processColors, IsWhite, n.id);
      } else {
        CountWherePositive(resourceColors, IsWhite, n.id);
      }
      assert |path| < MaxCycleLength && n !in path;
      Paint(n, Gray);
      if |path| < MaxCycleLength {
        path := path + [n];
        forall m | ValidNode(m) && ColorOf(m) == Gray ensures OnPath(path, m) {
          if m != n {
            assert old(OnPath(path, m));
          }
        }
      }
    }

    /** Pops the top of the path and marks it black; its successors are all finished. */
    method PopAndFinish(n: CycleNode)
      requires Valid() && |path| >= 1 && path[|path| - 1] == n
      requires forall v :: Edge(g, n, v) ==> v in rank
      modifies this
      ensures Valid()
      ensures path == old(path[..|path| - 1])
      ensures n in rank && forall m :: m in old(rank) ==> m in rank
      ensures output == old(output) && cycleFound == old(cycleFound)
      ensures WhiteCount() == old(WhiteCount())
    {
      ghost var oldRank := rank;
      assert ValidNode(n) && ColorOf(n) == Gray && n !in oldRank;
      var rest := path[..|path| - 1];
      assert path == rest + [n];
      assert n !in rest;
      path := rest;
      Paint(n, Black);
      rank := rank[n := clock];
      clock := clock + 1;
      forall m | ValidNode(m) && ColorOf(m) == Gray ensures OnPath(path, m) {
        assert old(OnPath(path, m));
      }
      forall u, v | u in rank && Edge(g, u, v) ensures v in rank && rank[v] < rank[u] {
        if u != n {
          assert u in oldRank;
        }
      }
    }

    /** The index of a gray node on the path (the C search loop). */
    method FindInPath(n: CycleNode) returns (i: int)
      requires Valid() && n in path
      ensures 0 <= i < |path| && path[i] == n
    {
      i := 0;
      while i < |path| && path[i] != n
        invariant 0 <= i <= |path| && n in path[i..]
        decreases |path| - i
      {
        i := i + 1;
      }
    }

    /** extract_cycle: copies the path from index start to its end, at most 128 nodes. */
    method ExtractCycle(start: int)
      requires Valid() && 0 <= start < |path|
      modifies this`output
      ensures output == Cycle(path[start..], true)
    {
      var nodes: seq<CycleNode> := [];
      var i := start;
      while i < |path| && |nodes| < MaxCycleLength
        invariant start <= i <= |path| && nodes == path[start..i]
      {
        nodes := nodes + [path[i]];
        i := i + 1;
      }
      output := Cycle(nodes, true);
    }

    /** visit_process: a gray process closes a cycle, a white one is explored
        through its requests, a black one is already finished. */
    method VisitProcess(p: int, ghost base: int) returns (found: bool)
      requires Valid()
      requires 0 <= base <= |path| && Walk(g, path[base..])
      requires base < |path| ==> RawEdge(g, path[|path| - 1], CycleNode(p, ProcessNode))
      modifies this
      decreases WhiteCount(), 1
      ensures Valid()
      ensures cycleFound == found && (old(cycleFound) ==> found)
      ensures found && !old(cycleFound) ==> CycleShaped(output)
      ensures found && !old(cycleFound) && base == 0 ==> ClosedWalk(g, output.nodes) && Distinct(output.nodes)
      ensures found && !old(cycleFound) ==> exists i :: 0 <= i < |path| && output == Cycle(path[i..], true)
      ensures !found ==> path == old(path) && output == old(output)
      ensures !found && IsLiveProcess(g, p) ==> CycleNode(p, ProcessNode) in rank
      ensures forall m :: m in old(rank) ==> m in rank
      ensures WhiteCount() <= old(WhiteCount())
    {
      if cycleFound {
        return true;
      }
      if p < 0 || p >= MaxProcesses {
        return false;
      }
      if !g.processes[p].active {
        return false;
      }
      var node := CycleNode(p, ProcessNode);
      if processColors[p] == Gray {
        found := CloseAt(node, base);
        return;
      }
      if processColors[p] == Black {
        return false;
      }
      Descend(node, base);
      found := VisitRequests(p, base);
      if !found {
        PopAndFinish(node);
      }
    }

    /** The loop of visit_process over the resources the process requests. */
    method VisitRequests(p: int, ghost base: int) returns (found: bool)
      requires Valid() && !cycleFound && 0 <= p < MaxProcesses
      requires 0 <= base < |path| && Walk(g, path[base..]) && path[|path| - 1] == CycleNode(p, ProcessNode)
      modifies this
      decreases WhiteCount() + 1, 0
      ensures Valid() && cycleFound == found
      ensures found ==> CycleShaped(output)
      ensures found && base == 0 ==> ClosedWalk(g, output.nodes) && Distinct(output.nodes)
      ensures found ==> exists i :: 0 <= i < |path| && output == Cycle(path[i..], true)
      ensures !found ==> path == old(path) && output == old(output)
      ensures !found ==> forall v :: Edge(g, CycleNode(p, ProcessNode), v) ==> v in rank
      ensures forall m :: m in old(rank) ==> m in rank
      ensures WhiteCount() <= old(WhiteCount())
    {
      var r := 0;
      while r < MaxResources
        invariant 0 <= r <= MaxResources
        invariant Valid() && !cycleFound
        invariant path == old(path) && output == old(output)
        invariant forall m :: m in old(rank) ==> m in rank
        invariant WhiteCount() <= old(WhiteCount())
        invariant forall k :: 0 <= k < r && g.request[p][k] > 0 && g.resources[k].active ==>
                    CycleNode(k, ResourceNode) in rank
      {
        if g.request[p][r] > 0 {
          found := VisitResource(r, base);
          if found {
            return true;
          }
        }
        r := r + 1;
      }
      return false;
    }

    /** visit_resource: the same three cases, exploring the holders of the resource. */
    method VisitResource(r: int, ghost base: int) returns (found: bool)
      requires Valid()
      requires 0 <= base <= |path| && Walk(g, path[base..])
      requires base < |path| ==> RawEdge(g, path[|path| - 1], CycleNode(r, ResourceNode))
      modifies this
      decreases WhiteCount(), 1
      ensures Valid()
      ensures cycleFound == found && (old(cycleFound) ==> found)
      ensures found && !old(cycleFound) ==> CycleShaped(output)
      ensures found && !old(cycleFound) && base == 0 ==> ClosedWalk(g, output.nodes) && Distinct(output.nodes)
      ensures found && !old(cycleFound) ==> exists i :: 0 <= i < |path| && output == Cycle(path[i..], true)
      ensures !found ==> path == old(path) && output == old(output)
      ensures !found && IsLiveResource(g, r) ==> CycleNode(r, ResourceNode) in rank
      ensures forall m :: m in old(rank) ==> m in rank
      ensures WhiteCount() <= old(WhiteCount())
    {
      if cycleFound {
        return true;
      }
      if r < 0 || r >= MaxResources {
        return false;
      }
      if !g.resources[r].active {
        return false;
      }
      var node := CycleNode(r, ResourceNode);
      if resourceColors[r] == Gray {
        found := CloseAt(node, base);
        return;
      }
      if resourceColors[r] == Black {
        return false;
      }
      Descend(node, base);
      found := VisitHolders(r, base);
      if !found {
        PopAndFinish(node);
      }
    }

    /** The loop of visit_resource over the processes holding the resource. */
    method VisitHolders(r: int, ghost base: int) returns (found: bool)
      requires Valid() && !cycleFound && 0 <= r < MaxResources
      requires 0 <= base < |path| && Walk(g, path[base..]) && path[|path| - 1] == CycleNode(r, ResourceNode)
      modifies this
      decreases WhiteCount() + 1, 0
      ensures Valid() && cycleFound == found
      ensures found ==> CycleShaped(output)
      ensures found && base == 0 ==> ClosedWalk(g, output.nodes) && Distinct(output.nodes)
      ensures found ==> exists i :: 0 <= i < |path| && output == Cycle(path[i..], true)
      ensures !found ==> path == old(path) && output == old(output)
      ensures !found ==> forall v :: Edge(g, CycleNode(r, ResourceNode), v) ==> v in rank
      ensures forall m :: m in old(rank) ==> m in rank
      ensures WhiteCount() <= old(WhiteCount())
    {
      var p := 0;
      while p < MaxProcesses
        invariant 0 <= p <= MaxProcesses
        invariant Valid() && !cycleFound
        invariant path == old(path) && output == old(output)
        invariant forall m :: m in old(rank) ==> m in rank
        invariant WhiteCount() <= old(WhiteCount())
        invariant forall k :: 0 <= k < p && g.assignment[k][r] > 0 && g.processes[k].active ==>
                    CycleNode(k, ProcessNode) in rank
      {
        if g.assignment[p][r] > 0 {
          found := VisitProcess(p, base);
          if found {
            return true;
          }
        }
        p := p + 1;
      }
      return false;
    }

    /** Pushes a white node reached along an edge, extending the walk from base. */
    method Descend(node: CycleNode, ghost base: int)
      requires Valid() && Active(g, node) && ColorOf(node) == White
      requires 0 <= base <= |path| && Walk(g, path[base..])
      requires base < |path| ==> RawEdge(g, path[|path| - 1], node)
      modifies this
      ensures Valid()
      ensures path == old(path) + [node] && Walk(g, path[base..])
      ensures rank == old(rank) && output == old(output) && cycleFound == old(cycleFound)
      ensures WhiteCount() + 1 == old(WhiteCount())
    {
      ghost var walk := path[base..];
      MarkAndPush(node);
      assert path[base..] == walk + [node];
      WalkExtend(g, walk, node);
    }

    /** One iteration of the search loop: a DFS from process p if it is active,
        has a pending request and is still white. */
    method StartAt(p: int) returns (found: bool)
      requires Valid() && !cycleFound && 0 <= p < MaxProcesses
      modifies this
      ensures Valid() && found == cycleFound
      ensures found ==> CycleShaped(output)
      ensures found && old(path) == [] ==> ClosedWalk(g, output.nodes) && Distinct(output.nodes)
      ensures found ==> exists i :: 0 <= i < |path| && output == Cycle(path[i..], true)
      ensures !found ==> path == old(path)
      ensures !found && old(path) == [] && Qualifies(g, p) ==> CycleNode(p, ProcessNode) in rank
      ensures forall m :: m in old(rank) ==> m in rank
    {
      found := false;
      if g.processes[p].active {
        var hasRequest := ScanPositive(g.request[p]);
        assert path == [] ==> !OnPath(path, CycleNode(p, ProcessNode));
        if hasRequest && processColors[p] == White {
          found := VisitProcess(p, |path|);
        }
      }
    }

    /** A gray node reached again: the path from its position to the top is the cycle. */
    method CloseAt(node: CycleNode, ghost base: int) returns (found: bool)
      requires Valid() && !cycleFound && ValidNode(node) && ColorOf(node) == Gray
      requires 0 <= base <= |path| && Walk(g, path[base..])
      requires base < |path| ==> RawEdge(g, path[|path| - 1], node)
      modifies this`output, this`cycleFound
      ensures Valid() && found && cycleFound
      ensures CycleShaped(output)
      ensures exists i :: 0 <= i < |path| && path[i] == node && output == Cycle(path[i..], true)
      ensures base == 0 ==> ClosedWalk(g, output.nodes) && Distinct(output.nodes)
    {
      assert OnPath(path, node);
      var i := FindInPath(node);
      CloseWalkOnPath(base, i);
      ExtractCycle(i);
      cycleFound := true;
      found := true;
    }

    /** When the search started at the bottom of the path, a back edge closes a walk. */
    lemma CloseWalkOnPath(base: int, i: int)
      requires Valid() && 0 <= base <= |path| && 0 <= i < |path|
      requires Walk(g, path[base..])
      requires base < |path| ==> RawEdge(g, path[|path| - 1], path[i])
      ensures base == 0 ==> ClosedWalk(g, path[i..]) && Distinct(path[i..])
      ensures CycleShaped(Cycle(path[i..], true))
    {
      if base == 0 {
        CloseWalk(g, path, i);
      }
    }
  }

  lemma {:induction false} CountAllWhite(s: seq<Color>)
    requires forall i :: 0 <= i < |s| ==> s[i] == White
    ensures CountWhere(s, IsWhite) == |s|
  {
    if |s| > 0 {
      CountAllWhite(s[..|s| - 1]);
    }
  }

  // ---------------------------------------------------------------------
  // Detection entry points
  // ---------------------------------------------------------------------

  lemma NodesOfSnoc(cycles: seq<Cycle>, c: int)
    requires 0 <= c < |cycles|
    ensures NodesOf(cycles[..c + 1]) == NodesOf(cycles[..c]) + (set x | x in cycles[c].nodes)
  {
    var pre, post := cycles[..c], cycles[..c + 1];
    forall x | x in NodesOf(post) ensures x in NodesOf(pre) || x in cycles[c].nodes {
      var k :| 0 <= k < |post| && x in post[k].nodes;
      if k < c {
        assert pre[k] == post[k];
      }
    }
    forall x | x in NodesOf(pre) ensures x in NodesOf(post) {
      var k :| 0 <= k < |pre| && x in pre[k].nodes;
      assert post[k] == pre[k];
    }
    forall x | x in cycles[c].nodes ensures x in NodesOf(post) {
      assert post[c] == cycles[c];
    }
  }

  /** Sets the flag of every process and resource occurring in the cycles
      (the marking loops of detect_deadlock_with_algorithm). */
  method MarkCycleNodes(cycles: seq<Cycle>) returns (procIn: seq<bool>, resIn: seq<bool>)
    requires forall c :: 0 <= c < |cycles| ==> CycleShaped(cycles[c])
    ensures |procIn| == MaxProcesses && |resIn| == MaxResources
    ensures forall q :: 0 <= q < MaxProcesses ==> (procIn[q] <==> CycleNode(q, ProcessNode) in NodesOf(cycles))
    ensures forall r :: 0 <= r < MaxResources ==> (resIn[r] <==> CycleNode(r, ResourceNode) in NodesOf(cycles))
  {
    procIn := seq(MaxProcesses, _ => false);
    resIn := seq(MaxResources, _ => false);
    var c := 0;
    while c < |cycles|
      invariant 0 <= c <= |cycles|
      invariant |procIn| == MaxProcesses && |resIn| == MaxResources
      invariant forall q :: 0 <= q < MaxProcesses ==> (procIn[q] <==> CycleNode(q, ProcessNode) in NodesOf(cycles[..c]))
      invariant forall r :: 0 <= r < MaxResources ==> (resIn[r] <==> CycleNode(r, ResourceNode) in NodesOf(cycles[..c]))
    {
      var nodes := cycles[c].nodes;
      var n := 0;
      while n < |nodes|
        invariant 0 <= n <= |nodes|
        invariant |procIn| == MaxProcesses && |resIn| == MaxResources
        invariant forall q :: 0 <= q < MaxProcesses ==>
                    (procIn[q] <==> CycleNode(q, ProcessNode) in NodesOf(cycles[..c]) || CycleNode(q, ProcessNode) in nodes[..n])
        invariant forall r :: 0 <= r < MaxResources ==>
                    (resIn[r] <==> CycleNode(r, ResourceNode) in NodesOf(cycles[..c]) || CycleNode(r, ResourceNode) in nodes[..n])
      {
        assert ValidNode(nodes[n]);
        assert nodes[..n + 1] == nodes[..n] + [nodes[n]];
        if nodes[n].kind == ProcessNode {
          procIn := procIn[nodes[n].id := true];
        } else {
          resIn := resIn[nodes[n].id := true];
        }
        n := n + 1;
      }
      assert nodes[..n] == nodes;
      NodesOfSnoc(cycles, c);
      c := c + 1;
    }
    assert cycles[..c] == cycles;
  }

  /** The indices of the set flags in ascending order (the collection loops). */
  method Flagged(flags: seq<bool>) returns (ids: seq<int>)
    ensures StrictlyIncreasing(ids)
    ensures forall x :: x in ids <==> 0 <= x < |flags| && flags[x]
  {
    ids := [];
    var i := 0;
    while i < |flags|
      invariant 0 <= i <= |flags|
      invariant StrictlyIncreasing(ids) && forall k :: 0 <= k < |ids| ==> ids[k] < i
      invariant forall x :: x in ids <==> 0 <= x < i && flags[x]
    {
      if flags[i] {
        ids := ids + [i];
      }
      i := i + 1;
    }
  }

  /** What the search loop keeps after trying the first p start candidates:
      until a cycle is found the path is empty and every candidate tried is
      ranked; once one is found, the first recorded cycle is a closed walk. */
  ghost predicate ScanInv(state: DfsState, g: RagState, p: int, detected: bool, cycles: seq<Cycle>, allCycles: bool)
    reads state
  {
    0 <= p <= MaxProcesses &&
    state.Valid() && state.g == g && !state.cycleFound &&
    (!detected ==> state.path == [] && cycles == [] &&
                   forall q :: 0 <= q < p && Qualifies(g, q) ==> CycleNode(q, ProcessNode) in state.rank) &&
    (detected ==> 1 <= |cycles| <= MaxCycles && ClosedWalk(g, cycles[0].nodes) && Distinct(cycles[0].nodes)) &&
    (forall c :: 0 <= c < |cycles| ==> CycleShaped(cycles[c])) &&
    (!allCycles ==> !detected)
  }

  /** One start candidate of the search loop; stop is set when a cycle is found
      and only the first is wanted. */
  method SearchFrom(state: DfsState, ghost g: RagState, p: int, allCycles: bool, detected0: bool, cycles0: seq<Cycle>)
    returns (detected: bool, cycles: seq<Cycle>, stop: bool)
    requires p < MaxProcesses && ScanInv(state, g, p, detected0, cycles0, allCycles)
    modifies state
    ensures stop ==> !allCycles && detected && |cycles| == 1
    ensures stop ==> ClosedWalk(g, cycles[0].nodes) && Distinct(cycles[0].nodes) && CycleShaped(cycles[0])
    ensures !stop ==> ScanInv(state, g, p + 1, detected, cycles, allCycles)
  {
    detected, cycles, stop := detected0, cycles0, false;
    var found := state.StartAt(p);
    if found {
      detected := true;
      if |cycles| < MaxCycles {
        cycles := cycles + [state.output];
      }
      if !allCycles {
        return detected, cycles, true;
      }
      state.ClearFound();
    }
  }

  /** The search loop of detect_deadlock_with_algorithm: a DFS from every active
      process with a pending request that is still white, in ascending order,
      stopping at the first cycle unless all cycles are wanted. */
  method SearchCycles(g: RagState, allCycles: bool) returns (detected: bool, cycles: seq<Cycle>)
    requires Shaped(g)
    ensures detected <==> HasCycle(g)
    ensures detected <==> |cycles| >= 1
    ensures |cycles| <= MaxCycles && (!allCycles ==> |cycles| <= 1)
    ensures detected ==> ClosedWalk(g, cycles[0].nodes) && Distinct(cycles[0].nodes)
    ensures forall c :: 0 <= c < |cycles| ==> CycleShaped(cycles[c])
  {
    detected := false;
    var state := new DfsState(g, Cycle([], false));
    cycles := [];
    var p := 0;
    while p < MaxProcesses
      invariant ScanInv(state, g, p, detected, cycles, allCycles)
    {
      var stop;
      detected, cycles, stop := SearchFrom(state, g, p, allCycles, detected, cycles);
      if stop {
        return;
      }
      p := p + 1;
    }
    if !detected {
      NoCycleWhenAllRanked(g, state.rank);
    }
  }

  /** detect_deadlock_with_algorithm. The DFS modes report the cycles found and the
      processes and resources on them, in ascending order; the Banker mode leaves
      the result as initialised. */
  method DetectWithAlgorithm(g: RagState, alg: DetectionAlgorithm) returns (detected: bool, result: DeadlockResult)
    requires Shaped(g)
    ensures detected == result.deadlockDetected
    ensures !detected ==> result == InitResult()
    ensures alg == Banker ==> !detected
    ensures alg != Banker ==> (detected <==> HasCycle(g))
    ensures detected ==> 1 <= |result.cycles| <= MaxCycles
    ensures detected ==> ClosedWalk(g, result.cycles[0].nodes) && Distinct(result.cycles[0].nodes)
    ensures alg == Dfs ==> |result.cycles| <= 1
    ensures forall c :: 0 <= c < |result.cycles| ==> CycleShaped(result.cycles[c])
    ensures StrictlyIncreasing(result.deadlockedProcesses) && StrictlyIncreasing(result.deadlockedResources)
    ensures forall q :: q in result.deadlockedProcesses <==>
              0 <= q < MaxProcesses && CycleNode(q, ProcessNode) in NodesOf(result.cycles)
    ensures forall r :: r in result.deadlockedResources <==>
              0 <= r < MaxResources && CycleNode(r, ResourceNode) in NodesOf(result.cycles)
  {
    result := InitResult();
    detected := false;
    if alg == Banker {
      return;
    }
    var cycles;
    detected, cycles := SearchCycles(g, alg == DfsAllCycles);
    if !detected {
      return;
    }
    var procIn, resIn := MarkCycleNodes(cycles);
    var procs := Flagged(procIn);
    var ress := Flagged(resIn);
    result := DeadlockResult(true, cycles, procs, ress);
  }

  /** What detect_deadlock reports on g: a deadlock exactly when g has a cycle,
      then one distinct closed walk and, in ascending order, the processes and
      resources on it; with no cycle, the result as initialised. */
  ghost predicate DetectionOf(g: RagState, d: DeadlockResult)
    requires Shaped(g)
  {
    && (d.deadlockDetected <==> HasCycle(g))
    && (!d.deadlockDetected ==> d == InitResult())
    && (d.deadlockDetected ==> |d.cycles| == 1 && CycleShaped(d.cycles[0]))
    && (d.deadlockDetected ==> ClosedWalk(g, d.cycles[0].nodes) && Distinct(d.cycles[0].nodes))
    && StrictlyIncreasing(d.deadlockedProcesses) && StrictlyIncreasing(d.deadlockedResources)
    && (forall q :: q in d.deadlockedProcesses <==>
          0 <= q < MaxProcesses && CycleNode(q, ProcessNode) in NodesOf(d.cycles))
    && (forall r :: r in d.deadlockedResources <==>
          0 <= r < MaxResources && CycleNode(r, ResourceNode) in NodesOf(d.cycles))
  }

  /** detect_deadlock: the first cycle found by the DFS, if any. */
  method DetectDeadlock(g: RagState) returns (detected: bool, result: DeadlockResult)
    requires Shaped(g)
    ensures detected == result.deadlockDetected && DetectionOf(g, result)
  {
    detected, result := DetectWithAlgorithm(g, Dfs);
  }

  /** detect_all_cycles: the number of cycles recorded in the all-cycles mode. */
  method DetectAllCycles(g: RagState) returns (count: int, result: DeadlockResult)
    requires Shaped(g)
    ensures count == |result.cycles| && 0 <= count <= MaxCycles
    ensures count > 0 <==> HasCycle(g)
    ensures count > 0 ==> ClosedWalk(g, result.cycles[0].nodes)
  {
    var detected;
    detected, result := DetectWithAlgorithm(g, DfsAllCycles);
    count := |result.cycles|;
  }

  /** dfs_from_process: one DFS from the given process; the cycle is written only
      when one is found. */
  method DfsFromProcess(g: RagState, start: int, cycle: Cycle) returns (found: bool, out: Cycle)
    requires Shaped(g)
    ensures found ==> IsLiveProcess(g, start) && CycleShaped(out)
    ensures found ==> ClosedWalk(g, out.nodes) && Distinct(out.nodes)
    ensures !found ==> out == cycle
    ensures !found && IsLiveProcess(g, start) ==>
              forall c :: ClosedWalk(g, c) ==> CycleNode(start, ProcessNode) !in c
  {
    out := cycle;
    if start < 0 || start >= MaxProcesses || !g.processes[start].active {
      return false, out;
    }
    var state := new DfsState(g, cycle);
    found := state.VisitProcess(start, 0);
    out := state.output;
    if !found {
      forall c | ClosedWalk(g, c) ensures CycleNode(start, ProcessNode) !in c {
        RankedNotOnCycle(g, state.rank, c, CycleNode(start, ProcessNode));
      }
    }
  }

  /** is_process_deadlocked: false for an id out of range or an inactive process; otherwise
      whether detect_deadlock lists it. The ghost result is that detection. */
  method IsProcessDeadlocked(g: RagState, p: int) returns (b: bool, ghost detection: DeadlockResult)
    requires Shaped(g)
    ensures IsLiveProcess(g, p) ==> DetectionOf(g, detection)
    ensures b <==> IsLiveProcess(g, p) && p in detection.deadlockedProcesses
    ensures b ==> exists c :: ClosedWalk(g, c) && CycleNode(p, ProcessNode) in c
    ensures !HasCycle(g) ==> !b
  {
    detection := InitResult();
    if p < 0 || p >= MaxProcesses || !g.processes[p].active {
      b := false;
      return;
    }
    var detected, result := DetectDeadlock(g);
    detection := result;
    if !detected {
      b := false;
      return;
    }
    b := false;
    var i := 0;
    while i < |result.deadlockedProcesses|
      invariant 0 <= i <= |result.deadlockedProcesses|
      invariant !b && p !in result.deadlockedProcesses[..i]
    {
      if result.deadlockedProcesses[i] == p {
        var x := CycleNode(p, ProcessNode);
        assert x in NodesOf(result.cycles);
        assert x in result.cycles[0].nodes;
        b := true;
        return;
      }
      i := i + 1;
    }
    assert result.deadlockedProcesses[..i] == result.deadlockedProcesses;
  }

  /** is_resource_in_deadlock: false for an id out of range or an inactive resource; otherwise
      whether detect_deadlock lists it. The ghost result is that detection. */
  method IsResourceInDeadlock(g: RagState, r: int) returns (b: bool, ghost detection: DeadlockResult)
    requires Shaped(g)
    ensures IsLiveResource(g, r) ==> DetectionOf(g, detection)
    ensures b <==> IsLiveResource(g, r) && r in detection.deadlockedResources
    ensures b ==> exists c :: ClosedWalk(g, c) && CycleNode(r, ResourceNode) in c
    ensures !HasCycle(g) ==> !b
  {
    detection := InitResult();
    if r < 0 || r >= MaxResources || !g.resources[r].active {
      b := false;
      return;
    }
    var detected, result := DetectDeadlock(g);
    detection := result;
    if !detected {
      b := false;
      return;
    }
    b := false;
    var i := 0;
    while i < |result.deadlockedResources|
      invariant 0 <= i <= |result.deadlockedResources|
      invariant !b && r !in result.deadlockedResources[..i]
    {
      if result.deadlockedResources[i] == r {
        var x := CycleNode(r, ResourceNode);
        assert x in NodesOf(result.cycles);
        assert x in result.cycles[0].nodes;
        b := true;
        return;
      }
      i := i + 1;
    }
    assert result.deadlockedResources[..i] == result.deadlockedResources;
  }

  // ---------------------------------------------------------------------
  // Analysis of a recorded cycle
  // ---------------------------------------------------------------------

  /** The ids of the nodes of one kind, in order. */
  function IdsOf(nodes: seq<CycleNode>, kind: NodeType): seq<int>
  {
    if |nodes| == 0 then []
    else IdsOf(nodes[..|nodes| - 1], kind) + (if nodes[|nodes| - 1].kind == kind then [nodes[|nodes| - 1].id] else [])
  }

  lemma {:induction false} IdsOfAppend(a: seq<CycleNode>, b: seq<CycleNode>, kind: NodeType)
    ensures IdsOf(a + b, kind) == IdsOf(a, kind) + IdsOf(b, kind)
  {
    if |b| > 0 {
      var ab := a + b;
      assert ab[..|ab| - 1] == a + b[..|b| - 1];
      IdsOfAppend(a, b[..|b| - 1], kind);
    } else {
      assert a + b == a;
    }
  }

  /** get_cycle_processes: the process ids of the cycle in order, at most maxSize. */
  method GetCycleProcesses(cycle: Cycle, maxSize: int) returns (ids: seq<int>)
    ensures ids == Take(IdsOf(cycle.nodes, ProcessNode), maxSize)
  {
    ids := [];
    if maxSize <= 0 {
      return;
    }
    var i := 0;
    while i < |cycle.nodes| && |ids| < maxSize
      invariant 0 <= i <= |cycle.nodes| && |ids| <= maxSize
      invariant ids == IdsOf(cycle.nodes[..i], ProcessNode)
    {
      assert cycle.nodes[..i + 1][..i] == cycle.nodes[..i];
      if cycle.nodes[i].kind == ProcessNode {
        ids := ids + [cycle.nodes[i].id];
      }
      i := i + 1;
    }
    assert cycle.nodes == cycle.nodes[..i] + cycle.nodes[i..];
    IdsOfAppend(cycle.nodes[..i], cycle.nodes[i..], ProcessNode);
  }

  /** get_cycle_resources: the resource ids of the cycle in order, at most maxSize. */
  method GetCycleResources(cycle: Cycle, maxSize: int) returns (ids: seq<int>)
    ensures ids == Take(IdsOf(cycle.nodes, ResourceNode), maxSize)
  {
    ids := [];
    if maxSize <= 0 {
      return;
    }
    var i := 0;
    while i < |cycle.nodes| && |ids| < maxSize
      invariant 0 <= i <= |cycle.nodes| && |ids| <= maxSize
      invariant ids == IdsOf(cycle.nodes[..i], ResourceNode)
    {
      assert cycle.nodes[..i + 1][..i] == cycle.nodes[..i];
      if cycle.nodes[i].kind == ResourceNode {
        ids := ids + [cycle.nodes[i].id];
      }
      i := i + 1;
    }
    assert cycle.nodes == cycle.nodes[..i] + cycle.nodes[i..];
    IdsOfAppend(cycle.nodes[..i], cycle.nodes[i..], ResourceNode);
  }

  /** Processes and resources alternate along a walk of the graph. */
  lemma {:induction false} WalkBalance(g: RagState, s: seq<CycleNode>)
    requires Shaped(g) && Walk(g, s) && |s| >= 1
    ensures |IdsOf(s, ProcessNode)| - |IdsOf(s, ResourceNode)| ==
            if s[0].kind != s[|s| - 1].kind then 0
            else if s[0].kind == ProcessNode then 1 else -1
  {
    if |s| > 1 {
      var init := s[..|s| - 1];
      forall i, j | 0 <= i && j == i + 1 && j < |init| ensures Edge(g, init[i], init[j]) {
        assert init[i] == s[i] && init[j] == s[j];
      }
      WalkBalance(g, init);
      assert Edge(g, s[|s| - 2], s[|s| - 1]);
    }
  }

  /** A cycle of the graph involves as many processes as resources. */
  lemma CycleBalanced(g: RagState, c: seq<CycleNode>)
    requires Shaped(g) && ClosedWalk(g, c)
    ensures |IdsOf(c, ProcessNode)| == |IdsOf(c, ResourceNode)|
  {
    WalkBalance(g, c);
  }

  /** calculate_deadlock_depth: the number of deadlocked processes, 0 without a deadlock. */
  function DeadlockDepth(result: DeadlockResult): (d: int)
    ensures d >= 0
    ensures d == 0 <== !result.deadlockDetected
  {
    if !result.deadlockDetected then 0 else |result.deadlockedProcesses|
  }
}
