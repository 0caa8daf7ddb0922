// The process-to-process wait-for graph and the iterative, stack-based cycle
// search over it.

module WaitFor {
  import opened Sums
  import opened Rag
  import opened CycleDetector

  // ---------------------------------------------------------------------
  // Building the wait-for graph from the resource allocation graph
  // ---------------------------------------------------------------------

  /** p1 waits for p2: p1 is active and requests, among the first rmax resources,
      one that the other process p2 holds. */
  ghost predicate WaitsVia(g: RagState, p1: int, p2: int, rmax: int)
    requires Shaped(g) && 0 <= p1 < MaxProcesses && 0 <= p2 < MaxProcesses && rmax <= MaxResources
  {
    g.processes[p1].active && p1 != p2 &&
    exists r :: 0 <= r < rmax && g.request[p1][r] > 0 && g.assignment[p2][r] > 0
  }

  ghost predicate WaitsFor(g: RagState, p1: int, p2: int)
    requires Shaped(g) && 0 <= p1 < MaxProcesses && 0 <= p2 < MaxProcesses
  {
    WaitsVia(g, p1, p2, MaxResources)
  }

  lemma WaitsViaStep(g: RagState, p1: int, p2: int, r: int)
    requires Shaped(g) && 0 <= p1 < MaxProcesses && 0 <= p2 < MaxProcesses && 0 <= r < MaxResources
    ensures WaitsVia(g, p1, p2, r + 1) <==>
            WaitsVia(g, p1, p2, r) ||
            (g.processes[p1].active && p1 != p2 && g.request[p1][r] > 0 && g.assignment[p2][r] > 0)
  {
    if WaitsVia(g, p1, p2, r + 1) && !WaitsVia(g, p1, p2, r) {
      var k :| 0 <= k < r + 1 && g.request[p1][k] > 0 && g.assignment[p2][k] > 0;
      assert k == r;
    }
  }

  /** build_wait_for_graph: entry [p1, p2] is 1 exactly when p1 waits for p2. */
  method BuildWaitForGraph(g: RagState, wf: array2<int>)
    requires Shaped(g) && wf.Length0 == MaxProcesses && wf.Length1 == MaxProcesses
    modifies wf
    ensures forall a, b :: 0 <= a < MaxProcesses && 0 <= b < MaxProcesses ==>
              wf[a, b] == if WaitsFor(g, a, b) then 1 else 0
  {
    var i := 0;
    while i < MaxProcesses
      invariant 0 <= i <= MaxProcesses
      invariant forall a, b :: 0 <= a < i && 0 <= b < MaxProcesses ==> wf[a, b] == 0
    {
      var j := 0;
      while j < MaxProcesses
        invariant 0 <= j <= MaxProcesses
        invariant forall a, b :: 0 <= a < i && 0 <= b < MaxProcesses ==> wf[a, b] == 0
        invariant forall b :: 0 <= b < j ==> wf[i, b] == 0
      {
        wf[i, j] := 0;
        j := j + 1;
      }
      i := i + 1;
    }
    var p1 := 0;
    while p1 < MaxProcesses
      invariant 0 <= p1 <= MaxProcesses
      invariant forall a, b :: 0 <= a < MaxProcesses && 0 <= b < MaxProcesses ==>
                  wf[a, b] == if a < p1 && WaitsFor(g, a, b) then 1 else 0
    {
      if g.processes[p1].active {
        FillRow(g, wf, p1);
      } else {
        forall b | 0 <= b < MaxProcesses ensures !WaitsFor(g, p1, b) { }
      }
      p1 := p1 + 1;
    }
  }

  /** The loops over r and p2 of build_wait_for_graph for one active p1. */
  method FillRow(g: RagState, wf: array2<int>, p1: int)
    requires Shaped(g) && wf.Length0 == MaxProcesses && wf.Length1 == MaxProcesses
    requires 0 <= p1 < MaxProcesses && g.processes[p1].active
    requires forall a, b :: 0 <= a < MaxProcesses && 0 <= b < MaxProcesses ==>
               wf[a, b] == if a < p1 && WaitsFor(g, a, b) then 1 else 0
    modifies wf
    ensures forall a, b :: 0 <= a < MaxProcesses && 0 <= b < MaxProcesses ==>
              wf[a, b] == if a <= p1 && WaitsFor(g, a, b) then 1 else 0
  {
    var r := 0;
    while r < MaxResources
      invariant 0 <= r <= MaxResources
      invariant forall a, b :: 0 <= a < MaxProcesses && 0 <= b < MaxProcesses && a != p1 ==>
                  wf[a, b] == if a < p1 && WaitsFor(g, a, b) then 1 else 0
      invariant forall b :: 0 <= b < MaxProcesses ==> wf[p1, b] == if WaitsVia(g, p1, b, r) then 1 else 0
    {
      forall b | 0 <= b < MaxProcesses {
        WaitsViaStep(g, p1, b, r);
      }
      if g.request[p1][r] > 0 {
        var p2 := 0;
        while p2 < MaxProcesses
          invariant 0 <= p2 <= MaxProcesses
          invariant forall a, b :: 0 <= a < MaxProcesses && 0 <= b < MaxProcesses && a != p1 ==>
                      wf[a, b] == if a < p1 && WaitsFor(g, a, b) then 1 else 0
          invariant forall b :: 0 <= b < p2 ==> wf[p1, b] == if WaitsVia(g, p1, b, r + 1) then 1 else 0
          invariant forall b :: p2 <= b < MaxProcesses ==> wf[p1, b] == if WaitsVia(g, p1, b, r) then 1 else 0
        {
          if p1 != p2 && g.assignment[p2][r] > 0 {
            wf[p1, p2] := 1;
          }
          p2 := p2 + 1;
        }
      }
      r := r + 1;
    }
  }

  /** In a well-formed graph, a request or an assignment entry links an active
      process and an active resource. */
  lemma EntryIsEdge(g: RagState, p: int, r: int)
    requires Inv(g) && 0 <= p < MaxProcesses && 0 <= r < MaxResources
    ensures g.request[p][r] > 0 ==> Edge(g, CycleNode(p, ProcessNode), CycleNode(r, ResourceNode))
    ensures g.assignment[p][r] > 0 ==> Edge(g, CycleNode(r, ResourceNode), CycleNode(p, ProcessNode))
  {
    assert ResourceSlotOk(g, r) && ProcessSlotOk(g, p);
    assert Column(g.request, r)[p] == g.request[p][r];
    assert Column(g.assignment, r)[p] == g.assignment[p][r];
    assert Zeros(MaxResources)[r] == 0 && Zeros(MaxProcesses)[p] == 0;
  }

  /** In a well-formed graph, p1 waits for p2 exactly when the graph has a path
      p1 -> r -> p2 through some resource r. */
  lemma WaitsForIsTwoStepPath(g: RagState, p1: int, p2: int)
    requires Inv(g) && 0 <= p1 < MaxProcesses && 0 <= p2 < MaxProcesses
    ensures WaitsFor(g, p1, p2) <==>
            p1 != p2 &&
            (exists r :: 0 <= r < MaxResources &&
               Edge(g, CycleNode(p1, ProcessNode), CycleNode(r, ResourceNode)) &&
               Edge(g, CycleNode(r, ResourceNode), CycleNode(p2, ProcessNode)))
  {
    if WaitsFor(g, p1, p2) {
      var r :| 0 <= r < MaxResources && g.request[p1][r] > 0 && g.assignment[p2][r] > 0;
      EntryIsEdge(g, p1, r);
      EntryIsEdge(g, p2, r);
    }
  }

  // ---------------------------------------------------------------------
  // Cycles of the wait-for graph
  // ---------------------------------------------------------------------

  /** A 64 by 64 matrix. */
  ghost predicate Square(wf: seq<seq<int>>)
  {
    |wf| == MaxProcesses && forall i :: 0 <= i < MaxProcesses ==> |wf[i]| == MaxProcesses
  }

  /** An edge among the first n processes. */
  ghost predicate WfEdge(wf: seq<seq<int>>, n: int, u: int, v: int)
    requires Square(wf)
  {
    0 <= u < n && 0 <= v < n && n <= MaxProcesses && wf[u][v] != 0
  }

  ghost predicate WfWalk(wf: seq<seq<int>>, n: int, c: seq<int>)
    requires Square(wf)
  {
    forall i, j :: 0 <= i && j == i + 1 && j < |c| ==> WfEdge(wf, n, c[i], c[j])
  }

  ghost predicate WfClosedWalk(wf: seq<seq<int>>, n: int, c: seq<int>)
    requires Square(wf)
  {
    |c| >= 1 && WfWalk(wf, n, c) && WfEdge(wf, n, c[|c| - 1], c[0])
  }

  ghost predicate WfHasCycle(wf: seq<seq<int>>, n: int)
    requires Square(wf)
  {
    exists c :: WfClosedWalk(wf, n, c)
  }

  /** The cycle as detect_cycle_in_wait_for reports it: the gray node reached
      again, then the path back up the parent chain, so each entry is waited on
      by the next one and the first waits on the last. */
  ghost predicate ReportedCycle(wf: seq<seq<int>>, n: int, c: seq<int>)
    requires Square(wf)
  {
    |c| >= 1 && Distinct(c) &&
    (forall i, j :: 0 <= i && j == i + 1 && j < |c| ==> WfEdge(wf, n, c[j], c[i])) &&
    WfEdge(wf, n, c[0], c[|c| - 1])
  }

  function Reverse(s: seq<int>): (r: seq<int>)
    ensures |r| == |s| && forall i :: 0 <= i < |s| ==> r[i] == s[|s| - 1 - i]
  {
    if |s| == 0 then [] else [s[|s| - 1]] + Reverse(s[..|s| - 1])
  }

  /** Read backwards, a reported cycle is a cycle of the wait-for graph. */
  lemma ReportedCycleReversed(wf: seq<seq<int>>, n: int, c: seq<int>)
    requires Square(wf) && ReportedCycle(wf, n, c)
    ensures WfClosedWalk(wf, n, Reverse(c)) && Distinct(Reverse(c))
  {
    var r := Reverse(c);
    var m := |c|;
    forall i, j | 0 <= i && j == i + 1 && j < m ensures WfEdge(wf, n, r[i], r[j]) {
      assert r[i] == c[m - 1 - i] && r[j] == c[m - 1 - i - 1];
      assert WfEdge(wf, n, c[m - 1 - i], c[m - 1 - i - 1]);
    }
    assert r[m - 1] == c[0] && r[0] == c[m - 1];
  }

  /** Ranks fall along the edges out of ranked nodes. */
  ghost predicate WfClosed(wf: seq<seq<int>>, n: int, rank: map<int, nat>)
    requires Square(wf)
  {
    forall u, v {:trigger WfEdge(wf, n, u, v)} :: u in rank && WfEdge(wf, n, u, v) ==> v in rank && rank[v] < rank[u]
  }

  lemma {:induction false} WfWalkReachesEnd(wf: seq<seq<int>>, n: int, rank: map<int, nat>, c: seq<int>, k: int)
    requires Square(wf) && WfClosed(wf, n, rank) && WfWalk(wf, n, c) && 0 <= k < |c| && c[k] in rank
    ensures c[|c| - 1] in rank
  {
    var j := k;
    while j < |c| - 1
      invariant k <= j <= |c| - 1 && c[j] in rank
    {
      assert WfEdge(wf, n, c[j], c[j + 1]);
      j := j + 1;
    }
  }

  lemma {:induction false} WfRankDescends(wf: seq<seq<int>>, n: int, rank: map<int, nat>, c: seq<int>)
    requires Square(wf) && WfClosed(wf, n, rank) && WfWalk(wf, n, c) && |c| >= 1 && c[0] in rank
    ensures forall i :: 0 <= i < |c| ==> c[i] in rank && rank[c[i]] + i <= rank[c[0]]
  {
    var j := 0;
    while j < |c| - 1
      invariant 0 <= j <= |c| - 1
      invariant forall i :: 0 <= i <= j ==> c[i] in rank && rank[c[i]] + i <= rank[c[0]]
    {
      assert WfEdge(wf, n, c[j], c[j + 1]);
      j := j + 1;
    }
  }

  /** With every node ranked and ranks falling along edges, there is no cycle. */
  lemma NoWfCycleWhenAllRanked(wf: seq<seq<int>>, n: int, rank: map<int, nat>)
    requires Square(wf) && WfClosed(wf, n, rank)
    requires forall x :: 0 <= x < n ==> x in rank
    ensures !WfHasCycle(wf, n)
  {
    if c: seq<int> :| WfClosedWalk(wf, n, c) {
      assert WfEdge(wf, n, c[|c| - 1], c[0]);
      WfWalkReachesEnd(wf, n, rank, c, 0);
      WfRankDescends(wf, n, rank, c);
    }
  }

  // ---------------------------------------------------------------------
  // The iterative search
  // ---------------------------------------------------------------------

  /** The matrix build_wait_for_graph produces for g, as a value. */
  ghost predicate IsWaitForOf(g: RagState, wf: seq<seq<int>>)
    requires Shaped(g)
  {
    Square(wf) &&
    forall a, b :: 0 <= a < MaxProcesses && 0 <= b < MaxProcesses ==>
      wf[a][b] == if WaitsFor(g, a, b) then 1 else 0
  }

  /** A resource through which p1 waits for p2. */
  ghost function Via(g: RagState, p1: int, p2: int): (r: int)
    requires Shaped(g) && 0 <= p1 < MaxProcesses && 0 <= p2 < MaxProcesses && WaitsFor(g, p1, p2)
    ensures 0 <= r < MaxResources && g.request[p1][r] > 0 && g.assignment[p2][r] > 0
  {
    var r :| 0 <= r < MaxResources && g.request[p1][r] > 0 && g.assignment[p2][r] > 0; r
  }

  function Succ(i: int, len: int): int
  {
    if i + 1 < len then i + 1 else 0
  }

  /** The processes of a wait-for cycle with, between each and the next, the
      resource it waits through. */
  ghost function Interleave(g: RagState, c: seq<int>): (w: seq<CycleNode>)
    requires Shaped(g) && forall i :: 0 <= i < |c| ==> 0 <= c[i] < MaxProcesses
    requires forall i :: 0 <= i < |c| ==> WaitsFor(g, c[i], c[Succ(i, |c|)])
    ensures |w| == 2 * |c|
  {
    seq(2 * |c|, k requires 0 <= k < 2 * |c| =>
      if k % 2 == 0 then CycleNode(c[k / 2], ProcessNode)
      else CycleNode(Via(g, c[k / 2], c[Succ(k / 2, |c|)]), ResourceNode))
  }

  /** A cycle of the wait-for graph built from a well-formed graph is a cycle of
      the graph itself: every wait-for deadlock is a resource allocation graph
      deadlock. */
  lemma WaitForCycleIsRagCycle(g: RagState, wf: seq<seq<int>>, c: seq<int>)
    requires Inv(g) && IsWaitForOf(g, wf) && WfClosedWalk(wf, MaxProcesses, c)
    ensures HasCycle(g)
  {
    var m := |c|;
    forall i | 0 <= i < m ensures 0 <= c[i] < MaxProcesses && WaitsFor(g, c[i], c[Succ(i, m)]) {
      if i + 1 < m {
        assert WfEdge(wf, MaxProcesses, c[i], c[i + 1]);
      } else {
        assert WfEdge(wf, MaxProcesses, c[m - 1], c[0]);
      }
    }
    var w := Interleave(g, c);
    forall k | 0 <= k < |w| ensures Edge(g, w[k], w[Succ(k, |w|)]) {
      var i := k / 2;
      var r := Via(g, c[i], c[Succ(i, m)]);
      EntryIsEdge(g, c[i], r);
      EntryIsEdge(g, c[Succ(i, m)], r);
      if k % 2 == 1 {
        assert Succ(k, |w|) % 2 == 0 && Succ(k, |w|) / 2 == Succ(i, m);
      }
    }
    forall i, j | 0 <= i && j == i + 1 && j < |w| ensures Edge(g, w[i], w[j]) {
      assert Succ(i, |w|) == j;
    }
    assert Succ(|w| - 1, |w|) == 0;
    assert ClosedWalk(g, w);
  }

  ghost predicate OnStack(stack: seq<int>, x: int)
  {
    x in stack
  }

  /** The invariant of the search, on the values of its locals: the stack holds
      distinct nodes below n, each the child of the one beneath it along an
      edge; every node but the top is gray, the top is gray or just pushed
      (white), and no gray node is off the stack; the black nodes are exactly
      the ranked ones, and ranks fall along every edge out of a black node. */
  ghost predicate SearchInv(wf: seq<seq<int>>, n: int, colors: seq<Color>, parent: seq<int>,
                            stack: seq<int>, rank: map<int, nat>, clock: nat)
  {
    Square(wf) && n <= MaxProcesses &&
    |colors| == MaxProcesses && |parent| == MaxProcesses && |stack| <= MaxProcesses &&
    (forall k :: 0 <= k < |stack| ==> 0 <= stack[k] < n) &&
    Distinct(stack) &&
    (forall k :: 0 <= k < |stack| - 1 ==> colors[stack[k]] == Gray) &&
    (|stack| > 0 ==> colors[stack[|stack| - 1]] != Black) &&
    (forall x {:trigger OnStack(stack, x)} :: 0 <= x < MaxProcesses && colors[x] == Gray ==> OnStack(stack, x)) &&
    (forall j, k :: 0 <= j && k == j + 1 && k < |stack| ==>
       parent[stack[k]] == stack[j] && WfEdge(wf, n, stack[j], stack[k])) &&
    (forall x :: 0 <= x < MaxProcesses ==> (colors[x] == Black <==> x in rank)) &&
    (forall x :: x in rank ==> 0 <= x < n && rank[x] < clock) &&
    WfClosed(wf, n, rank) &&
    CountWhere(colors, IsGray) == |stack| - (if |stack| > 0 && colors[stack[|stack| - 1]] == White then 1 else 0)
  }

  /** Turning the white top gray keeps the invariant. */
  lemma ShadeKeeps(wf: seq<seq<int>>, n: int, colors: seq<Color>, parent: seq<int>,
                   stack: seq<int>, rank: map<int, nat>, clock: nat)
    requires SearchInv(wf, n, colors, parent, stack, rank, clock)
    requires |stack| > 0 && colors[stack[|stack| - 1]] == White
    ensures SearchInv(wf, n, colors[stack[|stack| - 1] := Gray], parent, stack, rank, clock)
  {
    var top := stack[|stack| - 1];
    var c := colors[top := Gray];
    CountWhereUpdate(colors, IsGray, top, Gray);
    forall x | 0 <= x < MaxProcesses && c[x] == Gray ensures OnStack(stack, x) {
      if x != top {
        assert OnStack(stack, x);
      }
    }
  }

  /** Pushing a white successor of the gray top keeps the invariant; in
      particular the stack stays within its 64 slots. */
  lemma PushKeeps(wf: seq<seq<int>>, n: int, colors: seq<Color>, parent: seq<int>,
                  stack: seq<int>, rank: map<int, nat>, clock: nat, next: int)
    requires SearchInv(wf, n, colors, parent, stack, rank, clock)
    requires |stack| > 0 && colors[stack[|stack| - 1]] == Gray
    requires WfEdge(wf, n, stack[|stack| - 1], next) && colors[next] == White
    ensures SearchInv(wf, n, colors, parent[next := stack[|stack| - 1]], stack + [next], rank, clock)
  {
    CountWhereDisjoint(colors, IsWhite, IsGray);
    CountWherePositive(colors, IsWhite, next);
    assert |stack| < MaxProcesses;
    var current := stack[|stack| - 1];
    assert next !in stack;
    var p := parent[next := current];
    var st := stack + [next];
    assert Distinct(st) by {
      forall a, b | 0 <= a < b < |st| ensures st[a] != st[b] {
        if b < |stack| {
          assert st[a] == stack[a] && st[b] == stack[b];
        }
      }
    }
    forall j, k | 0 <= j && k == j + 1 && k < |st|
      ensures p[st[k]] == st[j] && WfEdge(wf, n, st[j], st[k])
    {
      if k < |stack| {
        assert st[k] == stack[k] && st[j] == stack[j] && stack[k] != next;
      }
    }
    forall x | 0 <= x < MaxProcesses && colors[x] == Gray ensures OnStack(st, x) {
      assert OnStack(stack, x);
    }
  }

  /** Finishing the gray top, all of whose successors are black, keeps the
      invariant: it turns black, leaves the stack and takes the next rank. */
  lemma PopKeeps(wf: seq<seq<int>>, n: int, colors: seq<Color>, parent: seq<int>,
                 stack: seq<int>, rank: map<int, nat>, clock: nat)
    requires SearchInv(wf, n, colors, parent, stack, rank, clock)
    requires |stack| > 0 && colors[stack[|stack| - 1]] == Gray
    requires forall v :: WfEdge(wf, n, stack[|stack| - 1], v) ==> colors[v] == Black
    ensures SearchInv(wf, n, colors[stack[|stack| - 1] := Black], parent, stack[..|stack| - 1],
                      rank[stack[|stack| - 1] := clock], clock + 1)
  {
    var top := stack[|stack| - 1];
    var c := colors[top := Black];
    var rest := stack[..|stack| - 1];
    var rk := rank[top := clock];
    CountWhereUpdate(colors, IsGray, top, Black);
    assert stack == rest + [top];
    assert top !in rest;
    forall x | 0 <= x < MaxProcesses && c[x] == Gray ensures OnStack(rest, x) {
      assert OnStack(stack, x);
    }
    forall u, v | u in rk && WfEdge(wf, n, u, v) ensures v in rk && rk[v] < rk[u] {
      if u != top {
        assert u in rank;
      }
    }
  }

  /** The locals of detect_cycle_in_wait_for: colours, parents and the explicit
      stack of the current tree, with the finishing ranks used in the proof. */
  class WaitForSearch {
    const wf: seq<seq<int>>
    const n: int
    var colors: seq<Color>
    var parent: seq<int>
    var stack: seq<int>
    ghost var rank: map<int, nat>
    ghost var clock: nat

    ghost function Top(): int
      reads this
      requires |stack| > 0
    {
      stack[|stack| - 1]
    }

    ghost function WhiteCount(): nat
      reads this
    {
      CountWhere(colors, IsWhite)
    }

    ghost function GrayCount(): nat
      reads this
    {
      CountWhere(colors, IsGray)
    }

    ghost predicate Valid()
      reads this
    {
      SearchInv(wf, n, colors, parent, stack, rank, clock)
    }

    /** Every colour white, every parent -1, an empty stack. */
    constructor (m: seq<seq<int>>, count: int)
      requires Square(m) && count <= MaxProcesses
      ensures Valid() && wf == m && n == count && stack == []
      ensures forall x :: 0 <= x < MaxProcesses ==> colors[x] == White
    {
      wf := m;
      n := count;
      colors := seq(MaxProcesses, _ => White);
      parent := seq(MaxProcesses, _ => -1);
      stack := [];
      rank := map[];
      clock := 0;
      new;
      CountWhereNone(colors, IsGray);
    }

    /** A new tree: the stack holds just the white start node. */
    method Begin(start: int)
      requires Valid() && stack == [] && 0 <= start < n && colors[start] == White
      modifies this
      ensures Valid() && stack == [start] && colors == old(colors) && rank == old(rank)
    {
      stack := [start];
      forall x | 0 <= x < MaxProcesses && colors[x] == Gray ensures OnStack(stack, x) {
        assert old(OnStack(stack, x));
      }
    }

    /** The top of the stack turns gray if it is still white. */
    method Shade()
      requires Valid() && |stack| > 0
      modifies this`colors
      ensures Valid() && colors[Top()] == Gray
      ensures forall x :: 0 <= x < MaxProcesses && x != Top() ==> colors[x] == old(colors[x])
      ensures WhiteCount() == old(WhiteCount()) - (if old(colors[Top()]) == White then 1 else 0)
    {
      var top := stack[|stack| - 1];
      if colors[top] == White {
        ShadeKeeps(wf, n, colors, parent, stack, rank, clock);
        CountWhereUpdate(colors, IsWhite, top, Gray);
        colors := colors[top := Gray];
      }
    }

    /** The first successor of current, among the first n processes, that is not
        black (the scan of the `next` loop), or -1 when every successor is black. */
    method FirstOpenSuccessor(current: int) returns (next: int)
      requires Valid() && 0 <= current < n
      ensures next == -1 ==> forall v :: WfEdge(wf, n, current, v) ==> colors[v] == Black
      ensures next != -1 ==> WfEdge(wf, n, current, next) && colors[next] != Black
    {
      next := 0;
      while next < n
        invariant 0 <= next <= n
        invariant forall v :: 0 <= v < next && WfEdge(wf, n, current, v) ==> colors[v] == Black
      {
        if wf[current][next] != 0 && colors[next] != Black {
          return;
        }
        next := next + 1;
      }
      next := -1;
    }

    /** Pushes a white successor of the (gray) top, recording its parent. */
    method Push(next: int)
      requires Valid() && |stack| > 0 && colors[Top()] == Gray
      requires WfEdge(wf, n, Top(), next) && colors[next] == White
      modifies this`parent, this`stack
      ensures Valid() && stack == old(stack) + [next]
    {
      PushKeeps(wf, n, colors, parent, stack, rank, clock, next);
      parent := parent[next := stack[|stack| - 1]];
      stack := stack + [next];
    }

    /** The gray top has no unfinished successor: it turns black and is popped. */
    method Pop()
      requires Valid() && |stack| > 0 && colors[Top()] == Gray
      requires forall v :: WfEdge(wf, n, Top(), v) ==> colors[v] == Black
      modifies this
      ensures Valid() && stack == old(stack[..|stack| - 1])
      ensures colors == old(colors)[old(Top()) := Black]
      ensures WhiteCount() == old(WhiteCount())
    {
      var top := stack[|stack| - 1];
      PopKeeps(wf, n, colors, parent, stack, rank, clock);
      CountWhereUpdate(colors, IsWhite, top, Black);
      colors := colors[top := Black];
      stack := stack[..|stack| - 1];
      rank := rank[top := clock];
      clock := clock + 1;
    }

    /** One iteration of the outer loop from a white start node: the stack loop
        until the tree is finished (every node reached is black) or a gray
        successor closes a cycle. */
    method Explore(start: int) returns (found: bool, cycle: seq<int>)
      requires Valid() && stack == [] && 0 <= start < n && colors[start] == White
      modifies this
      ensures Valid()
      ensures found ==> ReportedCycle(wf, n, cycle) && |cycle| <= MaxProcesses
      ensures !found ==> cycle == [] && stack == [] && colors[start] == Black
      ensures forall x :: 0 <= x < MaxProcesses && old(colors[x]) == Black ==> colors[x] == Black
    {
      cycle := [];
      Begin(start);
      while |stack| > 0
        invariant Valid()
        invariant forall x :: 0 <= x < MaxProcesses && old(colors[x]) == Black ==> colors[x] == Black
        invariant |stack| > 0 ==> stack[0] == start
        invariant |stack| == 0 ==> colors[start] == Black
        invariant cycle == []
        decreases WhiteCount(), 2 * GrayCount() - |stack| + 1
      {
        found, cycle := Advance(start);
        if found {
          return;
        }
      }
      found := false;
    }

    /** One pass of the stack loop: shade the top, then close a cycle through a
        gray successor, descend into a white one, or finish the top node. */
    method Advance(start: int) returns (found: bool, cycle: seq<int>)
      requires Valid() && |stack| > 0 && stack[0] == start
      modifies this
      ensures Valid()
      ensures found ==> ReportedCycle(wf, n, cycle) && |cycle| <= MaxProcesses
      ensures !found ==> cycle == []
      ensures forall x :: 0 <= x < MaxProcesses && old(colors[x]) == Black ==> colors[x] == Black
      ensures !found ==> (|stack| > 0 ==> stack[0] == start) && (|stack| == 0 ==> colors[start] == Black)
      ensures !found ==> (WhiteCount() < old(WhiteCount()) ||
        (WhiteCount() == old(WhiteCount()) && 2 * GrayCount() - |stack| < old(2 * GrayCount() - |stack|)))
    {
      var current := stack[|stack| - 1];
      Shade();
      var next := FirstOpenSuccessor(current);
      if next != -1 && colors[next] == Gray {
        cycle := TraceCycle(next);
        return true, cycle;
      }
      cycle := [];
      if next != -1 {
        Push(next);
      } else {
        Pop();
      }
      found := false;
    }

    /** The cycle extraction: the gray node reached again, then the parent chain
        from the top of the stack back to it. */
    method TraceCycle(next: int) returns (cycle: seq<int>)
      requires Valid() && |stack| > 0 && colors[Top()] == Gray
      requires WfEdge(wf, n, Top(), next) && colors[next] == Gray
      ensures ReportedCycle(wf, n, cycle) && |cycle| <= MaxProcesses
    {
      assert OnStack(stack, next);
      ghost var j :| 0 <= j < |stack| && stack[j] == next;
      var size := |stack|;
      cycle := [next];
      var trace := stack[size - 1];
      ghost var t := size - 1;
      while trace != next && |cycle| < MaxProcesses
        invariant j <= t < size && trace == stack[t]
        invariant |cycle| == size - t
        invariant cycle[0] == next && forall i :: 1 <= i < |cycle| ==> cycle[i] == stack[size - i]
        decreases t
      {
        cycle := cycle + [trace];
        trace := parent[trace];
        t := t - 1;
      }
      assert t == j;
      forall i, k | 0 <= i && k == i + 1 && k < |cycle| ensures WfEdge(wf, n, cycle[k], cycle[i]) {
        if i > 0 {
          assert cycle[k] == stack[size - k] && cycle[i] == stack[size - k + 1];
        }
      }
      forall a, b | 0 <= a < b < |cycle| ensures cycle[a] != cycle[b] {
        if a > 0 {
          assert cycle[a] == stack[size - a] && cycle[b] == stack[size - b];
        } else {
          assert cycle[b] == stack[size - b] && size - b > j;
        }
      }
      if |cycle| > 1 {
        assert cycle[|cycle| - 1] == stack[j + 1];
      }
    }
  }

  /** detect_cycle_in_wait_for over the first n processes: a DFS from each white
      node in ascending order with an explicit stack; reports the first cycle met. */
  method DetectCycleInWaitFor(wf: seq<seq<int>>, n: int) returns (found: bool, cycle: seq<int>)
    requires Square(wf) && n <= MaxProcesses
    ensures found <==> WfHasCycle(wf, n)
    ensures found ==> ReportedCycle(wf, n, cycle) && |cycle| <= MaxProcesses
    ensures !found ==> cycle == []
  {
    cycle := [];
    var s := new WaitForSearch(wf, n);
    var start := 0;
    while start < n
      invariant 0 <= start <= MaxProcesses && (n >= 0 ==> start <= n)
      invariant s.Valid() && s.wf == wf && s.n == n && s.stack == [] && cycle == []
      invariant forall x :: 0 <= x < start ==> s.colors[x] == Black
    {
      if s.colors[start] == White {
        found, cycle := s.Explore(start);
        if found {
          ReportedCycleReversed(wf, n, cycle);
          return;
        }
      } else {
        assert !OnStack(s.stack, start);
      }
      start := start + 1;
    }
    found := false;
    NoWfCycleWhenAllRanked(wf, n, s.rank);
  }
}
