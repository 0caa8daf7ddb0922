// The resource allocation graph store: 64 process slots, 64 resource slots,
// a 0/1 request matrix (process -> resource) and a counting assignment
// matrix (resource instances held by a process).

module Rag {
  import opened Sums
  import opened Wrappers

  const MaxProcesses := 64
  const MaxResources := 64

  datatype ProcessState = Running | Waiting | Blocked | Terminated

  /** A process slot; the name string is not modelled. */
  datatype Process = Process(id: int, priority: int, state: ProcessState, active: bool)

  /** A resource slot; the name string is not modelled. */
  datatype Resource = Resource(id: int, totalInstances: int, availableInstances: int, active: bool)

  /** A snapshot of the whole graph, as the detector and the specification see it. */
  datatype RagState = RagState(
    processes: seq<Process>,
    resources: seq<Resource>,
    request: seq<seq<int>>,
    assignment: seq<seq<int>>,
    processCount: int,
    resourceCount: int)

  function ProcessActive(p: Process): bool { p.active }
  function ProcessInactive(p: Process): bool { !p.active }
  function ResourceActive(r: Resource): bool { r.active }
  function ResourceInactive(r: Resource): bool { !r.active }

  predicate InRange(p: int, r: int)
  {
    0 <= p < MaxProcesses && 0 <= r < MaxResources
  }

  ghost predicate IsMatrix(m: seq<seq<int>>)
  {
    |m| == MaxProcesses && forall p :: 0 <= p < MaxProcesses ==> |m[p]| == MaxResources
  }

  /** The fixed array dimensions of the C structure. */
  ghost predicate Shaped(s: RagState)
  {
    |s.processes| == MaxProcesses && |s.resources| == MaxResources &&
    IsMatrix(s.request) && IsMatrix(s.assignment)
  }

  /** Instances of resource r held by all processes together. */
  ghost function Held(s: RagState, r: int): int
    requires Shaped(s) && 0 <= r < MaxResources
  {
    Sum(Column(s.assignment, r))
  }

  ghost predicate ProcessSlotOk(s: RagState, p: int)
    requires Shaped(s) && 0 <= p < MaxProcesses
  {
    if s.processes[p].active then s.processes[p].id == p
    else
      s.processes[p].id == -1 &&
      s.request[p] == Zeros(MaxResources) && s.assignment[p] == Zeros(MaxResources)
  }

  /** For an active resource: available plus held equals total (conservation). */
  ghost predicate ResourceSlotOk(s: RagState, r: int)
    requires Shaped(s) && 0 <= r < MaxResources
  {
    if s.resources[r].active then
      s.resources[r].id == r && s.resources[r].totalInstances >= 1 &&
      s.resources[r].availableInstances >= 0 &&
      s.resources[r].availableInstances + Held(s, r) == s.resources[r].totalInstances
    else
      s.resources[r].id == -1 &&
      Column(s.request, r) == Zeros(MaxProcesses) &&
      Column(s.assignment, r) == Zeros(MaxProcesses)
  }

  /** The invariant every graph operation keeps. */
  ghost predicate Inv(s: RagState)
  {
    Shaped(s) &&
    (forall p, r :: InRange(p, r) ==>
       (s.request[p][r] == 0 || s.request[p][r] == 1) && s.assignment[p][r] >= 0) &&
    (forall p :: 0 <= p < MaxProcesses ==> ProcessSlotOk(s, p)) &&
    (forall r :: 0 <= r < MaxResources ==> ResourceSlotOk(s, r)) &&
    s.processCount == CountWhere(s.processes, ProcessActive) &&
    s.resourceCount == CountWhere(s.resources, ResourceActive)
  }

  // ---------------------------------------------------------------------
  // Specification of each operation on a snapshot
  // ---------------------------------------------------------------------

  ghost function SetCell(m: seq<seq<int>>, p: int, r: int, v: int): (m': seq<seq<int>>)
    requires IsMatrix(m) && InRange(p, r)
    ensures IsMatrix(m')
  {
    m[p := m[p][r := v]]
  }

  ghost function ClearColumn(m: seq<seq<int>>, c: int): (m': seq<seq<int>>)
    requires IsMatrix(m) && 0 <= c < MaxResources
    ensures IsMatrix(m')
  {
    seq(MaxProcesses, p requires 0 <= p < MaxProcesses => m[p][c := 0])
  }

  /** Each entry that is positive becomes 0; others stay. */
  ghost function ClearPositive(row: seq<int>): (r: seq<int>)
    ensures |r| == |row|
  {
    seq(|row|, i requires 0 <= i < |row| => if row[i] > 0 then 0 else row[i])
  }

  function Empty(): RagState
  {
    RagState(
      seq(MaxProcesses, _ => Process(-1, 0, Running, false)),
      seq(MaxResources, _ => Resource(-1, 0, 0, false)),
      seq(MaxProcesses, _ => Zeros(MaxResources)),
      seq(MaxProcesses, _ => Zeros(MaxResources)),
      0, 0)
  }

  ghost function AddProcessAt(s: RagState, slot: int, priority: int): RagState
    requires Shaped(s) && 0 <= slot < MaxProcesses
  {
    s.(processes := s.processes[slot := Process(slot, priority, Running, true)],
       request := s.request[slot := Zeros(MaxResources)],
       assignment := s.assignment[slot := Zeros(MaxResources)],
       processCount := s.processCount + 1)
  }

  ghost predicate IsLiveProcess(s: RagState, p: int)
    requires Shaped(s)
  {
    0 <= p < MaxProcesses && s.processes[p].active
  }

  ghost predicate IsLiveResource(s: RagState, r: int)
    requires Shaped(s)
  {
    0 <= r < MaxResources && s.resources[r].active
  }

  /** Every unit of p's holdings goes back to its (active) resource; p's row becomes zero. */
  ghost function ReleaseAllOf(s: RagState, p: int): RagState
    requires Shaped(s) && 0 <= p < MaxProcesses
  {
    s.(assignment := s.assignment[p := Zeros(MaxResources)],
       resources := seq(MaxResources, r requires 0 <= r < MaxResources =>
         if s.resources[r].active
         then s.resources[r].(availableInstances := s.resources[r].availableInstances + s.assignment[p][r])
         else s.resources[r]))
  }

  ghost function RemoveProcessAt(s: RagState, p: int): RagState
    requires Shaped(s) && 0 <= p < MaxProcesses
  {
    var t := ReleaseAllOf(s, p);
    t.(request := t.request[p := ClearPositive(t.request[p])],
       processes := t.processes[p := t.processes[p].(active := false, id := -1)],
       processCount := t.processCount - 1)
  }

  ghost function AddResourceAt(s: RagState, slot: int, instances: int): RagState
    requires Shaped(s) && 0 <= slot < MaxResources
  {
    s.(resources := s.resources[slot := Resource(slot, instances, instances, true)],
       request := ClearColumn(s.request, slot),
       assignment := ClearColumn(s.assignment, slot),
       resourceCount := s.resourceCount + 1)
  }

  /** The resource may be removed: it exists and nobody holds an instance. */
  ghost predicate CanRemoveResource(s: RagState, r: int)
    requires Shaped(s)
  {
    IsLiveResource(s, r) && forall p :: 0 <= p < MaxProcesses ==> s.assignment[p][r] <= 0
  }

  ghost function RemoveResourceAt(s: RagState, r: int): RagState
    requires Shaped(s) && 0 <= r < MaxResources
  {
    s.(request := ClearColumn(s.request, r),
       resources := s.resources[r := s.resources[r].(active := false, id := -1)],
       resourceCount := s.resourceCount - 1)
  }

  /** A repeated request leaves the graph as it is; a new one sets the edge and Waiting. */
  ghost function RequestEdge(s: RagState, p: int, r: int): RagState
    requires Shaped(s) && InRange(p, r)
  {
    if s.request[p][r] > 0 then s
    else s.(request := SetCell(s.request, p, r, 1),
            processes := s.processes[p := s.processes[p].(state := Waiting)])
  }

  ghost function CancelEdge(s: RagState, p: int, r: int): RagState
    requires Shaped(s) && InRange(p, r)
  {
    var m := SetCell(s.request, p, r, 0);
    s.(request := m,
       processes := if !HasPositive(m[p]) && s.processes[p].active
                    then s.processes[p := s.processes[p].(state := Running)]
                    else s.processes)
  }

  ghost predicate CanAllocate(s: RagState, p: int, r: int)
    requires Shaped(s)
  {
    IsLiveProcess(s, p) && IsLiveResource(s, r) && s.resources[r].availableInstances > 0
  }

  ghost function AllocateUnit(s: RagState, p: int, r: int): RagState
    requires Shaped(s) && InRange(p, r)
  {
    var req := SetCell(s.request, p, r, 0);
    s.(request := req,
       assignment := SetCell(s.assignment, p, r, s.assignment[p][r] + 1),
       resources := s.resources[r := s.resources[r].(availableInstances := s.resources[r].availableInstances - 1)],
       processes := if HasPositive(req[p]) then s.processes
                    else s.processes[p := s.processes[p].(state := Running)])
  }

  ghost predicate CanRelease(s: RagState, p: int, r: int)
    requires Shaped(s)
  {
    InRange(p, r) && s.assignment[p][r] > 0
  }

  ghost function ReleaseUnit(s: RagState, p: int, r: int): RagState
    requires Shaped(s) && InRange(p, r)
  {
    s.(assignment := SetCell(s.assignment, p, r, s.assignment[p][r] - 1),
       resources := if s.resources[r].active
                    then s.resources[r := s.resources[r].(availableInstances := s.resources[r].availableInstances + 1)]
                    else s.resources)
  }

  /** The ids whose entry in row is positive, in ascending order. */
  function PositiveIndices(row: seq<int>): (ids: seq<int>)
    ensures |ids| <= |row|
  {
    if |row| == 0 then []
    else PositiveIndices(row[..|row| - 1]) + (if row[|row| - 1] > 0 then [|row| - 1] else [])
  }

  function Take(s: seq<int>, n: int): seq<int>
  {
    if n <= 0 then [] else if n >= |s| then s else s[..n]
  }

  /** The row with its first k entries zeroed (a row-clearing loop after k steps). */
  ghost function ZeroPrefix(row: seq<int>, k: int): (r: seq<int>)
    ensures |r| == |row|
  {
    seq(|row|, i requires 0 <= i < |row| => if i < k then 0 else row[i])
  }

  /** The row with its positive entries among the first k cleared (the request-clearing loop). */
  ghost function ClearPositivePrefix(row: seq<int>, k: int): (r: seq<int>)
    ensures |r| == |row|
  {
    seq(|row|, i requires 0 <= i < |row| => if i < k && row[i] > 0 then 0 else row[i])
  }

  /** The matrix with column c zeroed in its first k rows (a column-clearing loop after k steps). */
  ghost function ClearColumnPrefix(m: seq<seq<int>>, c: int, k: int): (m': seq<seq<int>>)
    requires IsMatrix(m) && 0 <= c < MaxResources
    ensures IsMatrix(m')
  {
    seq(MaxProcesses, p requires 0 <= p < MaxProcesses => if p < k then m[p][c := 0] else m[p])
  }

  /** One unit released from column r keeps the partial-release relation. */
  lemma ReleaseStepKeepsPartly(s0: RagState, s: RagState, p: int, r: int)
    requires Shaped(s0) && Inv(s) && 0 <= p < MaxProcesses && 0 <= r < MaxResources
    requires PartlyReleased(s0, s, p, r) && s.assignment[p][r] > 0
    ensures Inv(ReleaseUnit(s, p, r)) && PartlyReleased(s0, ReleaseUnit(s, p, r), p, r)
    ensures Sum(ReleaseUnit(s, p, r).assignment[p]) == Sum(s.assignment[p]) - 1
  {
    ReleaseUnitPreservesInv(s, p, r);
    SumUpdate(s.assignment[p], r, s.assignment[p][r] - 1);
    assert s0.resources[r].active;
  }

  /** Column r cleared: the relation moves on to column r + 1. */
  lemma NextColumn(s0: RagState, s: RagState, p: int, r: int)
    requires Shaped(s0) && Shaped(s) && 0 <= p < MaxProcesses && 0 <= r < MaxResources
    requires PartlyReleased(s0, s, p, r) && s.assignment[p][r] <= 0
    ensures PartlyReleased(s0, s, p, r + 1)
  {
  }

  /** Once every column of p is cleared, the state is that of releasing all of p. */
  lemma FullyReleased(s0: RagState, s: RagState, p: int)
    requires Shaped(s0) && Shaped(s) && 0 <= p < MaxProcesses
    requires PartlyReleased(s0, s, p, MaxResources)
    ensures s == ReleaseAllOf(s0, p)
  {
    assert s.assignment[p] == Zeros(MaxResources);
    assert s.assignment == s0.assignment[p := Zeros(MaxResources)];
    assert s.resources == ReleaseAllOf(s0, p).resources;
  }

  /** The state of release_all after its loops have drained the columns before r and
      part of column r: each unit taken from row p went back to its active resource. */
  ghost predicate PartlyReleased(s0: RagState, s: RagState, p: int, r: int)
    requires Shaped(s0) && Shaped(s) && 0 <= p < MaxProcesses
  {
    s.processes == s0.processes && s.request == s0.request &&
    s.processCount == s0.processCount && s.resourceCount == s0.resourceCount &&
    (forall q :: 0 <= q < MaxProcesses && q != p ==> s.assignment[q] == s0.assignment[q]) &&
    (forall c :: 0 <= c < MaxResources ==>
       (c < r ==> s.assignment[p][c] == 0) &&
       (c > r ==> s.assignment[p][c] == s0.assignment[p][c]) &&
       0 <= s.assignment[p][c] <= s0.assignment[p][c]) &&
    (forall c :: 0 <= c < MaxResources ==>
       s.resources[c] == if s0.resources[c].active
         then s0.resources[c].(availableInstances :=
                s0.resources[c].availableInstances + s0.assignment[p][c] - s.assignment[p][c])
         else s0.resources[c])
  }

  // ---------------------------------------------------------------------
  // Lemmas about the specification
  // ---------------------------------------------------------------------

  lemma ColumnOfSetCell(m: seq<seq<int>>, p: int, r: int, v: int, c: int)
    requires IsMatrix(m) && InRange(p, r) && 0 <= c < MaxResources
    ensures Column(SetCell(m, p, r, v), c) == if c == r then Column(m, c)[p := v] else Column(m, c)
  {
  }

  lemma EmptyIsValid()
    ensures Inv(Empty())
  {
    var s := Empty();
    CountWhereNone(s.processes, ProcessActive);
    CountWhereNone(s.resources, ResourceActive);
    forall r | 0 <= r < MaxResources
      ensures ResourceSlotOk(s, r)
    {
      assert Column(s.request, r) == Zeros(MaxProcesses);
      assert Column(s.assignment, r) == Zeros(MaxProcesses);
    }
  }

  /** An inactive process slot has empty rows, so taking it changes no matrix entry. */
  lemma {:induction false} AddProcessPreservesInv(s: RagState, slot: int, priority: int)
    requires Inv(s) && 0 <= slot < MaxProcesses && !s.processes[slot].active
    ensures Inv(AddProcessAt(s, slot, priority))
    ensures AddProcessAt(s, slot, priority).request == s.request
    ensures AddProcessAt(s, slot, priority).assignment == s.assignment
  {
    var t := AddProcessAt(s, slot, priority);
    assert ProcessSlotOk(s, slot);
    assert t.request == s.request && t.assignment == s.assignment;
    CountWhereUpdate(s.processes, ProcessActive, slot, t.processes[slot]);
    forall r | 0 <= r < MaxResources ensures ResourceSlotOk(t, r) {
      assert ResourceSlotOk(s, r);
    }
    forall p | 0 <= p < MaxProcesses ensures ProcessSlotOk(t, p) {
      assert p != slot ==> ProcessSlotOk(s, p);
    }
  }

  lemma {:induction false} ReleaseUnitPreservesInv(s: RagState, p: int, r: int)
    requires Inv(s) && CanRelease(s, p, r)
    ensures Inv(ReleaseUnit(s, p, r))
    ensures s.resources[r].active
  {
    var t := ReleaseUnit(s, p, r);
    assert ResourceSlotOk(s, r);
    assert Column(s.assignment, r)[p] == s.assignment[p][r];
    assert s.resources[r].active;
    forall c | 0 <= c < MaxResources ensures ResourceSlotOk(t, c) {
      ColumnOfSetCell(s.assignment, p, r, s.assignment[p][r] - 1, c);
      assert ResourceSlotOk(s, c);
      if c == r {
        SumUpdate(Column(s.assignment, r), p, s.assignment[p][r] - 1);
        SumNonNegative(Column(t.assignment, r));
      }
    }
    forall q | 0 <= q < MaxProcesses ensures ProcessSlotOk(t, q) {
      assert ProcessSlotOk(s, q);
    }
    assert t.processes == s.processes;
    CountWhereUpdate(s.resources, ResourceActive, r, t.resources[r]);
  }

  lemma {:induction false} AllocateUnitPreservesInv(s: RagState, p: int, r: int)
    requires Inv(s) && CanAllocate(s, p, r)
    ensures Inv(AllocateUnit(s, p, r))
  {
    var t := AllocateUnit(s, p, r);
    assert ResourceSlotOk(s, r);
    forall c | 0 <= c < MaxResources ensures ResourceSlotOk(t, c) {
      ColumnOfSetCell(s.assignment, p, r, s.assignment[p][r] + 1, c);
      ColumnOfSetCell(s.request, p, r, 0, c);
      assert ResourceSlotOk(s, c);
      if c == r {
        SumUpdate(Column(s.assignment, r), p, s.assignment[p][r] + 1);
      }
    }
    forall q | 0 <= q < MaxProcesses ensures ProcessSlotOk(t, q) {
      assert ProcessSlotOk(s, q);
    }
    CountWhereUpdate(s.resources, ResourceActive, r, t.resources[r]);
    CountWhereUpdate(s.processes, ProcessActive, p, t.processes[p]);
  }

  lemma {:induction false} RequestEdgePreservesInv(s: RagState, p: int, r: int)
    requires Inv(s) && IsLiveProcess(s, p) && IsLiveResource(s, r)
    ensures Inv(RequestEdge(s, p, r))
  {
    var t := RequestEdge(s, p, r);
    if s.request[p][r] <= 0 {
      forall c | 0 <= c < MaxResources ensures ResourceSlotOk(t, c) {
        ColumnOfSetCell(s.request, p, r, 1, c);
        assert ResourceSlotOk(s, c);
      }
      forall q | 0 <= q < MaxProcesses ensures ProcessSlotOk(t, q) {
        assert ProcessSlotOk(s, q);
      }
      CountWhereUpdate(s.processes, ProcessActive, p, t.processes[p]);
    }
  }

  lemma {:induction false} CancelEdgePreservesInv(s: RagState, p: int, r: int)
    requires Inv(s) && InRange(p, r) && s.request[p][r] != 0
    ensures Inv(CancelEdge(s, p, r))
  {
    var t := CancelEdge(s, p, r);
    assert ProcessSlotOk(s, p);
    assert Zeros(MaxResources)[r] == 0;
    assert s.processes[p].active;
    forall c | 0 <= c < MaxResources ensures ResourceSlotOk(t, c) {
      ColumnOfSetCell(s.request, p, r, 0, c);
      assert ResourceSlotOk(s, c);
    }
    forall q | 0 <= q < MaxProcesses ensures ProcessSlotOk(t, q) {
      assert ProcessSlotOk(s, q);
    }
    CountWhereUpdate(s.processes, ProcessActive, p, t.processes[p]);
  }

  lemma {:induction false} ReleaseAllPreservesInv(s: RagState, p: int)
    requires Inv(s) && 0 <= p < MaxProcesses
    ensures Inv(ReleaseAllOf(s, p))
  {
    var t := ReleaseAllOf(s, p);
    forall c | 0 <= c < MaxResources ensures ResourceSlotOk(t, c) {
      assert ResourceSlotOk(s, c);
      assert Column(t.assignment, c) == Column(s.assignment, c)[p := 0];
      assert Column(t.request, c) == Column(s.request, c);
      SumUpdate(Column(s.assignment, c), p, 0);
      if !s.resources[c].active {
        assert Column(s.assignment, c)[p] == s.assignment[p][c];
        assert Column(s.assignment, c)[p := 0] == Column(s.assignment, c);
      }
    }
    forall q | 0 <= q < MaxProcesses ensures ProcessSlotOk(t, q) {
      assert ProcessSlotOk(s, q);
    }
    assert forall c :: 0 <= c < MaxResources ==> t.resources[c].active == s.resources[c].active;
    CountWhereSame(s.resources, t.resources);
  }

  lemma {:induction false} CountWhereSame(a: seq<Resource>, b: seq<Resource>)
    requires |a| == |b| && forall i :: 0 <= i < |a| ==> a[i].active == b[i].active
    ensures CountWhere(a, ResourceActive) == CountWhere(b, ResourceActive)
  {
    if |a| > 0 {
      CountWhereSame(a[..|a| - 1], b[..|b| - 1]);
    }
  }

  lemma {:induction false} RemoveProcessPreservesInv(s: RagState, p: int)
    requires Inv(s) && IsLiveProcess(s, p)
    ensures Inv(RemoveProcessAt(s, p))
  {
    ReleaseAllPreservesInv(s, p);
    var u := ReleaseAllOf(s, p);
    var t := RemoveProcessAt(s, p);
    assert t.request[p] == Zeros(MaxResources);
    forall c | 0 <= c < MaxResources ensures ResourceSlotOk(t, c) {
      assert ResourceSlotOk(u, c);
      assert Column(t.assignment, c) == Column(u.assignment, c);
      if !u.resources[c].active {
        assert Column(u.request, c)[p] == u.request[p][c];
        assert Column(t.request, c) == Column(u.request, c);
      }
    }
    forall q | 0 <= q < MaxProcesses ensures ProcessSlotOk(t, q) {
      assert ProcessSlotOk(u, q);
    }
    CountWhereUpdate(u.processes, ProcessActive, p, t.processes[p]);
  }

  lemma {:induction false} AddResourcePreservesInv(s: RagState, slot: int, instances: int)
    requires Inv(s) && 0 <= slot < MaxResources && !s.resources[slot].active && instances > 0
    ensures Inv(AddResourceAt(s, slot, instances))
    ensures AddResourceAt(s, slot, instances).request == s.request
    ensures AddResourceAt(s, slot, instances).assignment == s.assignment
  {
    var t := AddResourceAt(s, slot, instances);
    assert ResourceSlotOk(s, slot);
    forall q | 0 <= q < MaxProcesses
      ensures t.request[q] == s.request[q] && t.assignment[q] == s.assignment[q]
    {
      assert Column(s.request, slot)[q] == s.request[q][slot];
      assert Column(s.assignment, slot)[q] == s.assignment[q][slot];
    }
    assert t.request == s.request && t.assignment == s.assignment;
    assert Column(t.assignment, slot) == Zeros(MaxProcesses);
    SumOfZeros(Column(t.assignment, slot));
    forall c | 0 <= c < MaxResources ensures ResourceSlotOk(t, c) {
      assert ResourceSlotOk(s, c);
    }
    forall q | 0 <= q < MaxProcesses ensures ProcessSlotOk(t, q) {
      assert ProcessSlotOk(s, q);
    }
    CountWhereUpdate(s.resources, ResourceActive, slot, t.resources[slot]);
  }

  lemma {:induction false} RemoveResourcePreservesInv(s: RagState, r: int)
    requires Inv(s) && CanRemoveResource(s, r)
    ensures Inv(RemoveResourceAt(s, r))
  {
    var t := RemoveResourceAt(s, r);
    forall q | 0 <= q < MaxProcesses ensures s.assignment[q][r] == 0 {
      assert s.assignment[q][r] >= 0;
    }
    assert Column(t.assignment, r) == Zeros(MaxProcesses);
    assert Column(t.request, r) == Zeros(MaxProcesses);
    forall c | 0 <= c < MaxResources ensures ResourceSlotOk(t, c) {
      assert ResourceSlotOk(s, c);
      if c != r {
        assert Column(t.request, c) == Column(s.request, c);
      }
    }
    forall q | 0 <= q < MaxProcesses ensures ProcessSlotOk(t, q) {
      assert ProcessSlotOk(s, q);
      if !s.processes[q].active {
        assert t.request[q] == s.request[q];
      }
    }
    CountWhereUpdate(s.resources, ResourceActive, r, t.resources[r]);
  }

  /** A unit allocated and then released leaves holdings and availability as they were. */
  lemma AllocateThenRelease(s: RagState, p: int, r: int)
    requires Inv(s) && CanAllocate(s, p, r)
    ensures CanRelease(AllocateUnit(s, p, r), p, r)
    ensures ReleaseUnit(AllocateUnit(s, p, r), p, r).assignment == s.assignment
    ensures ReleaseUnit(AllocateUnit(s, p, r), p, r).resources == s.resources
  {
    var t := AllocateUnit(s, p, r);
    assert s.assignment[p][r] >= 0;
    assert t.assignment[p][r := s.assignment[p][r]] == s.assignment[p];
    assert t.resources[r].(availableInstances := t.resources[r].availableInstances + 1) == s.resources[r];
  }

  /** A second identical request changes nothing. */
  lemma RequestIdempotent(s: RagState, p: int, r: int)
    requires Shaped(s) && InRange(p, r)
    ensures RequestEdge(RequestEdge(s, p, r), p, r) == RequestEdge(s, p, r)
    ensures RequestEdge(s, p, r).request[p][r] > 0
  {
  }

  /** Cancelling a fresh request restores the request matrix. */
  lemma RequestThenCancel(s: RagState, p: int, r: int)
    requires Shaped(s) && InRange(p, r) && s.request[p][r] == 0
    ensures CancelEdge(RequestEdge(s, p, r), p, r).request == s.request
  {
    var t := RequestEdge(s, p, r);
    assert t.request[p][r := 0] == s.request[p];
  }

  /** Removing a process clears its rows, hands back every unit it held and
      leaves every other process's edges as they were. */
  lemma {:induction false} RemoveProcessEffect(s: RagState, p: int)
    requires Inv(s) && IsLiveProcess(s, p)
    ensures var t := RemoveProcessAt(s, p);
      t.request[p] == Zeros(MaxResources) && t.assignment[p] == Zeros(MaxResources) &&
      !t.processes[p].active &&
      (forall q :: 0 <= q < MaxProcesses && q != p ==>
         t.request[q] == s.request[q] && t.assignment[q] == s.assignment[q] && t.processes[q] == s.processes[q]) &&
      (forall r :: 0 <= r < MaxResources ==>
         t.resources[r].availableInstances == s.resources[r].availableInstances + s.assignment[p][r])
  {
    var t := RemoveProcessAt(s, p);
    forall r | 0 <= r < MaxResources
      ensures t.resources[r].availableInstances == s.resources[r].availableInstances + s.assignment[p][r]
    {
      assert ResourceSlotOk(s, r);
      assert Column(s.assignment, r)[p] == s.assignment[p][r];
    }
  }

  /** Instances of each resource out on loan: total minus available when active, else 0. */
  ghost function OnLoan(s: RagState): (loan: seq<int>)
    requires Shaped(s)
    ensures |loan| == MaxResources
  {
    seq(MaxResources, r requires 0 <= r < MaxResources =>
      if s.resources[r].active then s.resources[r].totalInstances - s.resources[r].availableInstances else 0)
  }

  /** The assignment-matrix total that the statistics report equals the instances out on loan. */
  lemma {:induction false} AssignmentsAreOnLoan(s: RagState)
    requires Inv(s)
    ensures MatrixSum(s.assignment) == Sum(OnLoan(s))
  {
    MatrixSumByColumns(s.assignment, MaxResources);
    forall r | 0 <= r < MaxResources
      ensures ColumnSums(s.assignment, MaxResources)[r] == OnLoan(s)[r]
    {
      assert ResourceSlotOk(s, r);
      if !s.resources[r].active {
        SumOfZeros(Column(s.assignment, r));
      }
    }
    assert ColumnSums(s.assignment, MaxResources) == OnLoan(s);
  }

  lemma {:induction false} PositiveIndicesSpec(row: seq<int>)
    ensures forall i :: i in PositiveIndices(row) <==> 0 <= i < |row| && row[i] > 0
    ensures forall j, k :: 0 <= j < k < |PositiveIndices(row)| ==>
              PositiveIndices(row)[j] < PositiveIndices(row)[k]
  {
    if |row| > 0 {
      var init := row[..|row| - 1];
      PositiveIndicesSpec(init);
      assert forall i :: 0 <= i < |init| ==> init[i] == row[i];
      assert forall j :: 0 <= j < |PositiveIndices(init)| ==> PositiveIndices(init)[j] in PositiveIndices(init);
    }
  }

  lemma {:induction false} PositiveIndicesPrefix(row: seq<int>, k: nat)
    requires k <= |row|
    ensures PositiveIndices(row[..k]) <= PositiveIndices(row)
  {
    if k < |row| {
      PositiveIndicesPrefix(row[..|row| - 1], k);
      assert row[..|row| - 1][..k] == row[..k];
    } else {
      assert row[..k] == row;
    }
  }

  /** The has-requests scan of the C code: true iff some entry is positive. */
  method ScanPositive(row: seq<int>) returns (found: bool)
    ensures found == HasPositive(row)
  {
    var i := 0;
    while i < |row|
      invariant 0 <= i <= |row|
      invariant forall j :: 0 <= j < i ==> row[j] <= 0
    {
      if row[i] > 0 {
        return true;
      }
      i := i + 1;
    }
    return false;
  }

  /** Copies ascending ids with a positive entry into a buffer of maxSize. */
  method CollectPositive(row: seq<int>, maxSize: int) returns (ids: seq<int>)
    requires maxSize > 0
    ensures ids == Take(PositiveIndices(row), maxSize)
  {
    ids := [];
    var r := 0;
    while r < |row| && |ids| < maxSize
      invariant 0 <= r <= |row|
      invariant ids == PositiveIndices(row[..r])
      invariant |ids| <= maxSize
    {
      assert row[..r + 1][..r] == row[..r];
      if row[r] > 0 {
        ids := ids + [r];
      }
      r := r + 1;
    }
    PositiveIndicesPrefix(row, r);
    assert row[..|row|] == row;
  }

  // ---------------------------------------------------------------------
  // The graph object, updated in place by its operations
  // ---------------------------------------------------------------------

  class Graph {
    var processes: seq<Process>
    var resources: seq<Resource>
    var requestMatrix: seq<seq<int>>
    var assignmentMatrix: seq<seq<int>>
    var processCount: int
    var resourceCount: int

    /** The graph as a value (the snapshot the detector reads). */
    function State(): RagState
      reads this
    {
      RagState(processes, resources, requestMatrix, assignmentMatrix, processCount, resourceCount)
    }

    ghost predicate Valid()
      reads this
    {
      Inv(State())
    }

    /** rag_init on a fresh graph. */
    constructor ()
      ensures Valid() && State() == Empty()
    {
      var e := Empty();
      processes, resources := e.processes, e.resources;
      requestMatrix, assignmentMatrix := e.request, e.assignment;
      processCount, resourceCount := e.processCount, e.resourceCount;
      new;
      assert State() == e;
      EmptyIsValid();
    }

    /** rag_init / rag_reset on an existing graph. */
    method Reset()
      modifies this
      ensures Valid() && State() == Empty()
    {
      var e := Empty();
      processes, resources := e.processes, e.resources;
      requestMatrix, assignmentMatrix := e.request, e.assignment;
      processCount, resourceCount := e.processCount, e.resourceCount;
      assert State() == e;
      EmptyIsValid();
    }

    method AddProcess(priority: int) returns (slot: int)
      requires Valid()
      modifies this
      ensures Valid()
      ensures slot == FirstIndex(old(processes), ProcessInactive, 0)
      ensures State() == if slot == -1 then old(State()) else AddProcessAt(old(State()), slot, priority)
    {
      slot := -1;
      var i := 0;
      while i < MaxProcesses
        invariant 0 <= i <= MaxProcesses
        invariant forall j :: 0 <= j < i ==> processes[j].active
      {
        if !processes[i].active {
          slot := i;
          break;
        }
        i := i + 1;
      }
      if slot == -1 {
        return;
      }
      ghost var s0 := State();
      AddProcessPreservesInv(s0, slot, priority);
      assert ZeroPrefix(s0.request[slot], 0) == s0.request[slot];
      assert ZeroPrefix(s0.assignment[slot], 0) == s0.assignment[slot];
      processes := processes[slot := Process(slot, priority, Running, true)];
      var r := 0;
      while r < MaxResources
        invariant 0 <= r <= MaxResources
        invariant processes == AddProcessAt(s0, slot, priority).processes
        invariant processCount == s0.processCount && resources == s0.resources
        invariant resourceCount == s0.resourceCount
        invariant requestMatrix == s0.request[slot := ZeroPrefix(s0.request[slot], r)]
        invariant assignmentMatrix == s0.assignment[slot := ZeroPrefix(s0.assignment[slot], r)]
      {
        requestMatrix := requestMatrix[slot := requestMatrix[slot][r := 0]];
        assignmentMatrix := assignmentMatrix[slot := assignmentMatrix[slot][r := 0]];
        assert ZeroPrefix(s0.request[slot], r)[r := 0] == ZeroPrefix(s0.request[slot], r + 1);
        assert ZeroPrefix(s0.assignment[slot], r)[r := 0] == ZeroPrefix(s0.assignment[slot], r + 1);
        r := r + 1;
      }
      assert ZeroPrefix(s0.request[slot], MaxResources) == Zeros(MaxResources);
      assert ZeroPrefix(s0.assignment[slot], MaxResources) == Zeros(MaxResources);
      processCount := processCount + 1;
    }

    method RemoveProcess(p: int) returns (ok: bool)
      requires Valid()
      modifies this
      ensures Valid()
      ensures ok == IsLiveProcess(old(State()), p)
      ensures State() == if ok then RemoveProcessAt(old(State()), p) else old(State())
    {
      if p < 0 || p >= MaxProcesses || !processes[p].active {
        return false;
      }
      ghost var s0 := State();
      RemoveProcessPreservesInv(s0, p);
      var _ := ReleaseAll(p);
      ghost var s1 := State();
      assert ClearPositivePrefix(s1.request[p], 0) == s1.request[p];
      var r := 0;
      while r < MaxResources
        invariant 0 <= r <= MaxResources
        invariant processes == s1.processes && resources == s1.resources
        invariant processCount == s1.processCount && resourceCount == s1.resourceCount
        invariant assignmentMatrix == s1.assignment
        invariant requestMatrix == s1.request[p := ClearPositivePrefix(s1.request[p], r)]
      {
        if requestMatrix[p][r] > 0 {
          requestMatrix := requestMatrix[p := requestMatrix[p][r := 0]];
        }
        assert requestMatrix[p] == ClearPositivePrefix(s1.request[p], r + 1);
        r := r + 1;
      }
      assert ClearPositivePrefix(s1.request[p], MaxResources) == ClearPositive(s1.request[p]);
      processes := processes[p := processes[p].(active := false, id := -1)];
      processCount := processCount - 1;
      assert State() == RemoveProcessAt(s0, p);
      ok := true;
    }

    /** rag_get_process: the slot's record when the id names an active process. */
    function GetProcess(p: int): (r: Option<Process>)
      reads this
      requires Valid()
      ensures r.Some? <==> IsLiveProcess(State(), p)
      ensures r.Some? ==> r.value.id == p && r.value.active
    {
      if p < 0 || p >= MaxProcesses || !processes[p].active then None
      else
        assert ProcessSlotOk(State(), p);
        Some(processes[p])
    }

    /** rag_get_resource: the slot's record when the id names an active resource. */
    function GetResource(r: int): (res: Option<Resource>)
      reads this
      requires Valid()
      ensures res.Some? <==> IsLiveResource(State(), r)
      ensures res.Some? ==> res.value.id == r && res.value.availableInstances <= res.value.totalInstances
    {
      if r < 0 || r >= MaxResources || !resources[r].active then None
      else
        assert ResourceSlotOk(State(), r);
        SumNonNegative(Column(assignmentMatrix, r));
        Some(resources[r])
    }

    method SetProcessState(p: int, st: ProcessState) returns (ok: bool)
      requires Valid()
      modifies this
      ensures Valid()
      ensures ok == IsLiveProcess(old(State()), p)
      ensures State() == if ok then old(State()).(processes := old(processes)[p := old(processes)[p].(state := st)])
                         else old(State())
    {
      if p < 0 || p >= MaxProcesses || !processes[p].active {
        return false;
      }
      ghost var s0 := State();
      processes := processes[p := processes[p].(state := st)];
      CountWhereUpdate(s0.processes, ProcessActive, p, processes[p]);
      forall q | 0 <= q < MaxProcesses ensures ProcessSlotOk(State(), q) {
        assert ProcessSlotOk(s0, q);
      }
      forall c | 0 <= c < MaxResources ensures ResourceSlotOk(State(), c) {
        assert ResourceSlotOk(s0, c);
      }
      ok := true;
    }

    method AddResource(instances: int) returns (slot: int)
      requires Valid()
      modifies this
      ensures Valid()
      ensures instances <= 0 ==> slot == -1
      ensures instances > 0 ==> slot == FirstIndex(old(resources), ResourceInactive, 0)
      ensures State() == if slot == -1 then old(State()) else AddResourceAt(old(State()), slot, instances)
    {
      if instances <= 0 {
        return -1;
      }
      slot := -1;
      var i := 0;
      while i < MaxResources
        invariant 0 <= i <= MaxResources
        invariant forall j :: 0 <= j < i ==> resources[j].active
      {
        if !resources[i].active {
          slot := i;
          break;
        }
        i := i + 1;
      }
      if slot == -1 {
        return;
      }
      ghost var s0 := State();
      AddResourcePreservesInv(s0, slot, instances);
      resources := resources[slot := Resource(slot, instances, instances, true)];
      var p := 0;
      while p < MaxProcesses
        invariant 0 <= p <= MaxProcesses
        invariant resources == AddResourceAt(s0, slot, instances).resources
        invariant processes == s0.processes && resourceCount == s0.resourceCount
        invariant processCount == s0.processCount
        invariant requestMatrix == ClearColumnPrefix(s0.request, slot, p)
        invariant assignmentMatrix == ClearColumnPrefix(s0.assignment, slot, p)
      {
        requestMatrix := requestMatrix[p := requestMatrix[p][slot := 0]];
        assignmentMatrix := assignmentMatrix[p := assignmentMatrix[p][slot := 0]];
        assert ClearColumnPrefix(s0.request, slot, p)[p := s0.request[p][slot := 0]] == ClearColumnPrefix(s0.request, slot, p + 1);
        assert ClearColumnPrefix(s0.assignment, slot, p)[p := s0.assignment[p][slot := 0]] == ClearColumnPrefix(s0.assignment, slot, p + 1);
        p := p + 1;
      }
      assert ClearColumnPrefix(s0.request, slot, MaxProcesses) == ClearColumn(s0.request, slot);
      assert ClearColumnPrefix(s0.assignment, slot, MaxProcesses) == ClearColumn(s0.assignment, slot);
      resourceCount := resourceCount + 1;
    }

    method RemoveResource(r: int) returns (ok: bool)
      requires Valid()
      modifies this
      ensures Valid()
      ensures ok == CanRemoveResource(old(State()), r)
      ensures State() == if ok then RemoveResourceAt(old(State()), r) else old(State())
    {
      if r < 0 || r >= MaxResources || !resources[r].active {
        return false;
      }
      var p := 0;
      while p < MaxProcesses
        invariant 0 <= p <= MaxProcesses
        invariant forall q :: 0 <= q < p ==> assignmentMatrix[q][r] <= 0
      {
        if assignmentMatrix[p][r] > 0 {
          return false;
        }
        p := p + 1;
      }
      ghost var s0 := State();
      RemoveResourcePreservesInv(s0, r);
      p := 0;
      while p < MaxProcesses
        invariant 0 <= p <= MaxProcesses
        invariant resources == s0.resources && processes == s0.processes
        invariant processCount == s0.processCount && resourceCount == s0.resourceCount
        invariant assignmentMatrix == s0.assignment
        invariant requestMatrix == ClearColumnPrefix(s0.request, r, p)
      {
        requestMatrix := requestMatrix[p := requestMatrix[p][r := 0]];
        assert ClearColumnPrefix(s0.request, r, p)[p := s0.request[p][r := 0]] == ClearColumnPrefix(s0.request, r, p + 1);
        p := p + 1;
      }
      assert ClearColumnPrefix(s0.request, r, MaxProcesses) == ClearColumn(s0.request, r);
      resources := resources[r := resources[r].(active := false, id := -1)];
      resourceCount := resourceCount - 1;
      ok := true;
    }

    method RequestResource(p: int, r: int) returns (ok: bool)
      requires Valid()
      modifies this
      ensures Valid()
      ensures ok == (IsLiveProcess(old(State()), p) && IsLiveResource(old(State()), r))
      ensures State() == if ok then RequestEdge(old(State()), p, r) else old(State())
    {
      if p < 0 || p >= MaxProcesses || !processes[p].active { return false; }
      if r < 0 || r >= MaxResources || !resources[r].active { return false; }
      RequestEdgePreservesInv(State(), p, r);
      if requestMatrix[p][r] > 0 {
        return true;
      }
      requestMatrix := requestMatrix[p := requestMatrix[p][r := 1]];
      processes := processes[p := processes[p].(state := Waiting)];
      ok := true;
    }

    method CancelRequest(p: int, r: int) returns (ok: bool)
      requires Valid()
      modifies this
      ensures Valid()
      ensures ok == (InRange(p, r) && old(State()).request[p][r] != 0)
      ensures State() == if ok then CancelEdge(old(State()), p, r) else old(State())
    {
      if p < 0 || p >= MaxProcesses { return false; }
      if r < 0 || r >= MaxResources { return false; }
      if requestMatrix[p][r] == 0 {
        return false;
      }
      CancelEdgePreservesInv(State(), p, r);
      requestMatrix := requestMatrix[p := requestMatrix[p][r := 0]];
      var hasRequests := ScanPositive(requestMatrix[p]);
      if !hasRequests && processes[p].active {
        processes := processes[p := processes[p].(state := Running)];
      }
      ok := true;
    }

    method AllocateResource(p: int, r: int) returns (ok: bool)
      requires Valid()
      modifies this
      ensures Valid()
      ensures ok == CanAllocate(old(State()), p, r)
      ensures State() == if ok then AllocateUnit(old(State()), p, r) else old(State())
    {
      if p < 0 || p >= MaxProcesses || !processes[p].active { return false; }
      if r < 0 || r >= MaxResources || !resources[r].active { return false; }
      if resources[r].availableInstances <= 0 {
        return false;
      }
      AllocateUnitPreservesInv(State(), p, r);
      requestMatrix := requestMatrix[p := requestMatrix[p][r := 0]];
      assignmentMatrix := assignmentMatrix[p := assignmentMatrix[p][r := assignmentMatrix[p][r] + 1]];
      resources := resources[r := resources[r].(availableInstances := resources[r].availableInstances - 1)];
      var hasRequests := ScanPositive(requestMatrix[p]);
      if !hasRequests {
        processes := processes[p := processes[p].(state := Running)];
      }
      ok := true;
    }

    method ReleaseResource(p: int, r: int) returns (ok: bool)
      requires Valid()
      modifies this
      ensures Valid()
      ensures ok == CanRelease(old(State()), p, r)
      ensures State() == if ok then ReleaseUnit(old(State()), p, r) else old(State())
    {
      if p < 0 || p >= MaxProcesses { return false; }
      if r < 0 || r >= MaxResources { return false; }
      if assignmentMatrix[p][r] <= 0 {
        return false;
      }
      ReleaseUnitPreservesInv(State(), p, r);
      assignmentMatrix := assignmentMatrix[p := assignmentMatrix[p][r := assignmentMatrix[p][r] - 1]];
      if resources[r].active {
        resources := resources[r := resources[r].(availableInstances := resources[r].availableInstances + 1)];
      }
      ok := true;
    }

    /** Releases every held unit of p one at a time; returns how many were freed. */
    method ReleaseAll(p: int) returns (released: int)
      requires Valid()
      modifies this
      ensures Valid()
      ensures State() == if 0 <= p < MaxProcesses then ReleaseAllOf(old(State()), p) else old(State())
      ensures released == if 0 <= p < MaxProcesses then Sum(old(assignmentMatrix)[p]) else 0
    {
      if p < 0 || p >= MaxProcesses {
        return 0;
      }
      ghost var s0 := State();
      released := 0;
      var r := 0;
      while r < MaxResources
        invariant 0 <= r <= MaxResources
        invariant Valid() && PartlyReleased(s0, State(), p, r)
        invariant released == Sum(s0.assignment[p]) - Sum(assignmentMatrix[p])
      {
        while assignmentMatrix[p][r] > 0
          invariant Valid() && PartlyReleased(s0, State(), p, r)
          invariant released == Sum(s0.assignment[p]) - Sum(assignmentMatrix[p])
          decreases assignmentMatrix[p][r]
        {
          ReleaseStepKeepsPartly(s0, State(), p, r);
          var _ := ReleaseResource(p, r);
          released := released + 1;
        }
        NextColumn(s0, State(), p, r);
        r := r + 1;
      }
      FullyReleased(s0, State(), p);
      SumOfZeros(assignmentMatrix[p]);
    }

    function IsRequesting(p: int, r: int): (b: bool)
      reads this
      requires Valid()
      ensures b ==> IsLiveProcess(State(), p) && IsLiveResource(State(), r)
    {
      if InRange(p, r) && requestMatrix[p][r] > 0 then
        assert ProcessSlotOk(State(), p);
        assert ResourceSlotOk(State(), r);
        assert Zeros(MaxResources)[r] == 0;
        assert Column(requestMatrix, r)[p] == requestMatrix[p][r];
        true
      else false
    }

    function IsHolding(p: int, r: int): (b: bool)
      reads this
      requires Valid()
      ensures b ==> IsLiveProcess(State(), p) && IsLiveResource(State(), r)
      ensures b ==> resources[r].availableInstances < resources[r].totalInstances
    {
      if InRange(p, r) && assignmentMatrix[p][r] > 0 then
        assert ProcessSlotOk(State(), p);
        assert ResourceSlotOk(State(), r);
        assert Zeros(MaxResources)[r] == 0;
        assert Column(assignmentMatrix, r)[p] == assignmentMatrix[p][r];
        SumPositive(Column(assignmentMatrix, r), p);
        true
      else false
    }

    method HeldResources(p: int, maxSize: int) returns (ids: seq<int>)
      requires Valid()
      ensures ids == if maxSize <= 0 || p < 0 || p >= MaxProcesses then []
                     else Take(PositiveIndices(assignmentMatrix[p]), maxSize)
    {
      if maxSize <= 0 || p < 0 || p >= MaxProcesses {
        return [];
      }
      ids := CollectPositive(assignmentMatrix[p], maxSize);
    }

    method RequestedResources(p: int, maxSize: int) returns (ids: seq<int>)
      requires Valid()
      ensures ids == if maxSize <= 0 || p < 0 || p >= MaxProcesses then []
                     else Take(PositiveIndices(requestMatrix[p]), maxSize)
    {
      if maxSize <= 0 || p < 0 || p >= MaxProcesses {
        return [];
      }
      ids := CollectPositive(requestMatrix[p], maxSize);
    }

    method HoldingProcesses(r: int, maxSize: int) returns (ids: seq<int>)
      requires Valid()
      ensures ids == if maxSize <= 0 || r < 0 || r >= MaxResources then []
                     else Take(PositiveIndices(Column(assignmentMatrix, r)), maxSize)
    {
      if maxSize <= 0 || r < 0 || r >= MaxResources {
        return [];
      }
      var m := assignmentMatrix;
      ids := CollectPositive(seq(MaxProcesses, q requires 0 <= q < MaxProcesses => m[q][r]), maxSize);
    }

    /** rag_get_stats: the counts and the sums of both matrices. */
    method GetStats() returns (totalProcesses: int, totalResources: int, totalRequests: int, totalAssignments: int)
      requires Valid()
      ensures totalProcesses == CountWhere(processes, ProcessActive)
      ensures totalResources == CountWhere(resources, ResourceActive)
      ensures totalRequests == MatrixSum(requestMatrix)
      ensures totalAssignments == Sum(OnLoan(State()))
    {
      totalProcesses, totalResources := processCount, resourceCount;
      totalRequests, totalAssignments := 0, 0;
      var p := 0;
      while p < MaxProcesses
        invariant 0 <= p <= MaxProcesses
        invariant totalRequests == MatrixSum(requestMatrix[..p])
        invariant totalAssignments == MatrixSum(assignmentMatrix[..p])
      {
        var r := 0;
        while r < MaxResources
          invariant 0 <= r <= MaxResources
          invariant totalRequests == MatrixSum(requestMatrix[..p]) + Sum(requestMatrix[p][..r])
          invariant totalAssignments == MatrixSum(assignmentMatrix[..p]) + Sum(assignmentMatrix[p][..r])
        {
          SumPrefixStep(requestMatrix[p], r);
          SumPrefixStep(assignmentMatrix[p], r);
          totalRequests := totalRequests + requestMatrix[p][r];
          totalAssignments := totalAssignments + assignmentMatrix[p][r];
          r := r + 1;
        }
        assert requestMatrix[p][..MaxResources] == requestMatrix[p];
        assert assignmentMatrix[p][..MaxResources] == assignmentMatrix[p];
        assert requestMatrix[..p + 1][..p] == requestMatrix[..p];
        assert assignmentMatrix[..p + 1][..p] == assignmentMatrix[..p];
        p := p + 1;
      }
      assert requestMatrix[..MaxProcesses] == requestMatrix;
      assert assignmentMatrix[..MaxProcesses] == assignmentMatrix;
      AssignmentsAreOnLoan(State());
    }
  }
}
