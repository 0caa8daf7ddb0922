// The Banker's algorithm of the standalone avoidance program (deadlock.c):
// the need table, the safety check with its safe sequence, tentative
// allocation with rollback, release, and the detection report built on the
// safety check.

module Banker {
  import opened Sums

  const MaxProcesses := 20
  const MaxResources := 10

  /** The program's system state. Only the first np processes and nr
      resource types are in use; the tables are stored at full size, as
      the fixed arrays of the program are. */
  datatype BankerState = BankerState(
    np: int,
    nr: int,
    allocation: seq<seq<int>>,
    maximum: seq<seq<int>>,
    available: seq<int>,
    need: seq<seq<int>>)

  ghost predicate IsTable(m: seq<seq<int>>)
  {
    |m| == MaxProcesses && forall i :: 0 <= i < MaxProcesses ==> |m[i]| == MaxResources
  }

  ghost predicate Shaped(s: BankerState)
  {
    0 <= s.np <= MaxProcesses && 0 <= s.nr <= MaxResources &&
    |s.available| == MaxResources &&
    IsTable(s.allocation) && IsTable(s.maximum) && IsTable(s.need)
  }

  // ---------------------------------------------------------------------
  // The need table

  /** The need table once every in-use cell holds maximum minus allocation;
      cells outside the in-use block keep what they held. */
  function NeedTable(s: BankerState): (t: seq<seq<int>>)
    requires Shaped(s)
  {
    seq(MaxProcesses, i requires 0 <= i < MaxProcesses =>
      seq(MaxResources, j requires 0 <= j < MaxResources =>
        if i < s.np && j < s.nr then s.maximum[i][j] - s.allocation[i][j] else s.need[i][j]))
  }

  /** Every in-use need cell is maximum minus allocation. */
  ghost predicate NeedConsistent(s: BankerState)
    requires Shaped(s)
  {
    forall i, j :: 0 <= i < s.np && 0 <= j < s.nr ==>
      s.need[i][j] == s.maximum[i][j] - s.allocation[i][j]
  }

  /** Recomputing the need table makes it consistent and touches nothing
      outside the in-use block. */
  lemma NeedTableConsistent(s: BankerState)
    requires Shaped(s)
    ensures Shaped(s.(need := NeedTable(s)))
    ensures NeedConsistent(s.(need := NeedTable(s)))
    ensures forall i, j :: 0 <= i < MaxProcesses && 0 <= j < MaxResources && !(i < s.np && j < s.nr) ==>
      NeedTable(s)[i][j] == s.need[i][j]
    ensures forall i :: s.np <= i < MaxProcesses ==> NeedTable(s)[i] == s.need[i]
  {
    forall i | s.np <= i < MaxProcesses
      ensures NeedTable(s)[i] == s.need[i]
    {
      assert forall j :: 0 <= j < MaxResources ==> NeedTable(s)[i][j] == s.need[i][j];
    }
  }

  // ---------------------------------------------------------------------
  // The safety check

  /** Process i's outstanding need fits the work vector. */
  predicate Fits(s: BankerState, work: seq<int>, i: int)
    requires Shaped(s) && 0 <= i < s.np && |work| == s.nr
  {
    forall j :: 0 <= j < s.nr ==> s.need[i][j] <= work[j]
  }

  /** The work vector once process i has finished and returned what it holds. */
  function Released(s: BankerState, work: seq<int>, i: int): (w: seq<int>)
    requires Shaped(s) && 0 <= i < s.np && |work| == s.nr
    ensures |w| == s.nr
  {
    seq(s.nr, j requires 0 <= j < s.nr => work[j] + s.allocation[i][j])
  }

  ghost predicate InRange(s: BankerState, order: seq<int>)
  {
    forall k :: 0 <= k < |order| ==> 0 <= order[k] < s.np
  }

  ghost predicate Distinct(order: seq<int>)
  {
    forall a, b :: 0 <= a < b < |order| ==> order[a] != order[b]
  }

  /** The work vector once the processes of `order` have finished one after
      another: available plus everything they held. */
  function WorkAfter(s: BankerState, order: seq<int>): (w: seq<int>)
    requires Shaped(s) && InRange(s, order)
    ensures |w| == s.nr
    decreases |order|
  {
    if |order| == 0 then s.available[..s.nr]
    else Released(s, WorkAfter(s, order[..|order| - 1]), order[|order| - 1])
  }

  /** The k-th process of `order` fits the work left by those before it. */
  ghost predicate FitsInTurn(s: BankerState, order: seq<int>, k: int)
    requires Shaped(s) && InRange(s, order) && 0 <= k < |order|
  {
    Fits(s, WorkAfter(s, order[..k]), order[k])
  }

  /** A safe sequence: every in-use process exactly once, and each one's need
      fits the work left by the processes before it. This is the reference
      definition the greedy check is proved against. */
  ghost predicate IsSafeSequence(s: BankerState, order: seq<int>)
    requires Shaped(s)
  {
    |order| == s.np && Distinct(order) && InRange(s, order) &&
    (forall i :: 0 <= i < s.np ==> i in order) &&
    (forall k :: 0 <= k < |order| ==> FitsInTurn(s, order, k))
  }

  function IsTrue(b: bool): bool { b }

  /** The variables of the safety check: the work vector, the finish flags,
      the safe sequence built so far and whether the current pass has
      finished anybody. */
  datatype Scan = Scan(work: seq<int>, finish: seq<bool>, order: seq<int>, found: bool)

  /** What the safety check keeps true between steps: the finished processes are
      exactly those in the sequence, once each, and every one of them fitted
      the work left by those before it. */
  ghost predicate Consistent(s: BankerState, st: Scan)
    requires Shaped(s)
  {
    |st.finish| == s.np && Distinct(st.order) && InRange(s, st.order) &&
    (forall i :: 0 <= i < s.np ==> (st.finish[i] <==> i in st.order)) &&
    |st.order| == CountWhere(st.finish, IsTrue) &&
    st.work == WorkAfter(s, st.order) &&
    (forall k :: 0 <= k < |st.order| ==> FitsInTurn(s, st.order, k))
  }

  /** The safety check's starting point: work is available, nobody has finished. */
  function Initial(s: BankerState): (st: Scan)
    requires Shaped(s)
    ensures Consistent(s, st)
  {
    CountWhereNone(seq(s.np, _ => false), IsTrue);
    Scan(s.available[..s.nr], seq(s.np, _ => false), [], false)
  }

  /** Process i finishes: its allocation joins work and it joins the sequence. */
  function Finish(s: BankerState, st: Scan, i: int): (r: Scan)
    requires Shaped(s) && 0 <= i < s.np && |st.work| == s.nr && |st.finish| == s.np
  {
    Scan(Released(s, st.work, i), st.finish[i := true], st.order + [i], true)
  }

  lemma FinishKeepsConsistent(s: BankerState, st: Scan, i: int)
    requires Shaped(s) && Consistent(s, st) && 0 <= i < s.np
    requires !st.finish[i] && Fits(s, st.work, i)
    ensures Consistent(s, Finish(s, st, i))
  {
    var r := Finish(s, st, i);
    assert i !in st.order;
    assert r.order[..|st.order|] == st.order;
    assert WorkAfter(s, r.order) == r.work;
    forall k | 0 <= k < |r.order|
      ensures FitsInTurn(s, r.order, k)
    {
      if k < |st.order| {
        assert r.order[..k] == st.order[..k];
        assert FitsInTurn(s, st.order, k);
      }
    }
    CountWhereUpdate(st.finish, IsTrue, i, true);
  }

  /** One pass of the safety check over processes i, i+1, ... np-1: each unfinished
      process whose need fits the current work finishes at once. */
  ghost function ScanFrom(s: BankerState, st: Scan, i: int): (r: Scan)
    requires Shaped(s) && Consistent(s, st) && 0 <= i <= s.np
    ensures Consistent(s, r)
    ensures |st.order| <= |r.order| && r.order[..|st.order|] == st.order
    ensures r.found <==> st.found || |r.order| > |st.order|
    ensures |r.order| == |st.order| ==> r == st
    decreases s.np - i
  {
    if i == s.np then st
    else if !st.finish[i] && Fits(s, st.work, i) then
      FinishKeepsConsistent(s, st, i);
      var r := ScanFrom(s, Finish(s, st, i), i + 1);
      assert r.order[..|st.order| + 1][..|st.order|] == r.order[..|st.order|];
      r
    else ScanFrom(s, st, i + 1)
  }

  /** A pass that finishes nobody met only finished processes or processes
      whose need does not fit the work vector. */
  lemma {:induction false} ScanFromStuck(s: BankerState, st: Scan, i: int)
    requires Shaped(s) && Consistent(s, st) && 0 <= i <= s.np
    ensures |ScanFrom(s, st, i).order| == |st.order| ==>
      forall q :: i <= q < s.np ==> st.finish[q] || !Fits(s, st.work, q)
    decreases s.np - i
  {
    if i < s.np && !(!st.finish[i] && Fits(s, st.work, i)) {
      ScanFromStuck(s, st, i + 1);
    }
  }

  /** The safety check's passes from st: stop with everybody finished, or after a
      pass that finishes nobody. */
  ghost function Passes(s: BankerState, st: Scan): (r: Scan)
    requires Shaped(s) && Consistent(s, st)
    ensures Consistent(s, r) && !r.found
    ensures |r.order| == s.np || forall q :: 0 <= q < s.np ==> r.finish[q] || !Fits(s, r.work, q)
    decreases s.np - |st.order|
  {
    if |st.order| >= s.np then st.(found := false)
    else
      var next := ScanFrom(s, st.(found := false), 0);
      ScanFromStuck(s, st.(found := false), 0);
      if !next.found then next
      else Passes(s, next)
  }

  /** The outcome of the safety check on s. */
  ghost function SafetyCheck(s: BankerState): (r: Scan)
    requires Shaped(s)
    ensures Consistent(s, r)
  {
    Passes(s, Initial(s))
  }

  /** The safety check succeeds: every process found its turn. */
  ghost predicate Safe(s: BankerState)
    requires Shaped(s)
  {
    |SafetyCheck(s).order| == s.np
  }

  /** A successful safety check yields a safe sequence. */
  lemma SafeSequenceSound(s: BankerState)
    requires Shaped(s) && Safe(s)
    ensures IsSafeSequence(s, SafetyCheck(s).order)
  {
    var r := SafetyCheck(s);
    CountWhereFull(r.finish, IsTrue);
    assert forall i :: 0 <= i < s.np ==> IsTrue(r.finish[i]);
  }

  /** A failed safety check leaves some process unfinished, and none of the
      unfinished ones fits the final work vector. */
  lemma UnsafeIsStuck(s: BankerState)
    requires Shaped(s) && !Safe(s)
    ensures exists q :: 0 <= q < s.np && q !in SafetyCheck(s).order
    ensures forall q :: 0 <= q < s.np && q !in SafetyCheck(s).order ==>
      !Fits(s, SafetyCheck(s).work, q)
  {
    var r := SafetyCheck(s);
    CountWhereFull(r.finish, IsTrue);
    var q :| 0 <= q < s.np && !IsTrue(r.finish[q]);
    assert q !in r.order;
  }

  // ---------------------------------------------------------------------
  // Completeness: with non-negative allocations the greedy check finds a
  // safe sequence whenever one exists.

  ghost predicate NonNegativeAllocation(s: BankerState)
    requires Shaped(s)
  {
    forall i, j :: 0 <= i < s.np && 0 <= j < s.nr ==> s.allocation[i][j] >= 0
  }

  /** Column j of the allocation table with the rows outside `order` zeroed. */
  function Masked(s: BankerState, order: seq<int>, j: int): (m: seq<int>)
    requires Shaped(s) && 0 <= j < s.nr
    ensures |m| == s.np
  {
    seq(s.np, x requires 0 <= x < s.np => if x in order then s.allocation[x][j] else 0)
  }

  lemma {:induction false} WorkAfterMasked(s: BankerState, order: seq<int>, j: int)
    requires Shaped(s) && InRange(s, order) && Distinct(order) && 0 <= j < s.nr
    ensures WorkAfter(s, order)[j] == s.available[j] + Sum(Masked(s, order, j))
    decreases |order|
  {
    if |order| == 0 {
      SumOfZeros(Masked(s, order, j));
    } else {
      var last := order[|order| - 1];
      var front := order[..|order| - 1];
      WorkAfterMasked(s, front, j);
      assert last !in front;
      assert Masked(s, order, j) == Masked(s, front, j)[last := s.allocation[last][j]];
      SumUpdate(Masked(s, front, j), last, s.allocation[last][j]);
    }
  }

  /** Finishing a superset of processes leaves at least as much work. */
  lemma WorkAfterMonotone(s: BankerState, a: seq<int>, b: seq<int>)
    requires Shaped(s) && NonNegativeAllocation(s)
    requires InRange(s, a) && Distinct(a) && InRange(s, b) && Distinct(b)
    requires forall x :: x in a ==> x in b
    ensures forall j :: 0 <= j < s.nr ==> WorkAfter(s, a)[j] <= WorkAfter(s, b)[j]
  {
    forall j | 0 <= j < s.nr
      ensures WorkAfter(s, a)[j] <= WorkAfter(s, b)[j]
    {
      WorkAfterMasked(s, a, j);
      WorkAfterMasked(s, b, j);
      SumMonotone(Masked(s, a, j), Masked(s, b, j));
    }
  }

  /** Against a finished or stuck outcome r of the safety check, every process of
      a safe sequence finished: by induction along the sequence, each one's
      need fits the work of its predecessors, hence r's larger work. */
  lemma {:induction false} SafeSequenceFinished(s: BankerState, sigma: seq<int>, r: Scan, k: int)
    requires Shaped(s) && NonNegativeAllocation(s) && IsSafeSequence(s, sigma)
    requires Consistent(s, r)
    requires |r.order| == s.np || forall q :: 0 <= q < s.np ==> r.finish[q] || !Fits(s, r.work, q)
    requires 0 <= k <= |sigma|
    ensures forall x :: x in sigma[..k] ==> x in r.order
    decreases k
  {
    if k > 0 {
      SafeSequenceFinished(s, sigma, r, k - 1);
      var before := sigma[..k - 1];
      WorkAfterMonotone(s, before, r.order);
      assert FitsInTurn(s, sigma, k - 1);
      var q := sigma[k - 1];
      if |r.order| == s.np {
        CountWhereFull(r.finish, IsTrue);
        assert IsTrue(r.finish[q]);
      } else {
        assert Fits(s, r.work, q);
      }
      assert sigma[..k] == before + [q];
    }
  }

  /** If any safe sequence exists, the greedy check succeeds. */
  lemma GreedyComplete(s: BankerState, sigma: seq<int>)
    requires Shaped(s) && NonNegativeAllocation(s) && IsSafeSequence(s, sigma)
    ensures Safe(s)
  {
    var r := SafetyCheck(s);
    SafeSequenceFinished(s, sigma, r, |sigma|);
    assert sigma[..|sigma|] == sigma;
    forall q | 0 <= q < s.np
      ensures IsTrue(r.finish[q])
    {
      assert q in sigma;
    }
    CountWhereFull(r.finish, IsTrue);
  }

  /** The safety check succeeds exactly when a safe sequence exists. */
  lemma SafeIffSafeSequenceExists(s: BankerState)
    requires Shaped(s) && NonNegativeAllocation(s)
    ensures Safe(s) <==> exists sigma :: IsSafeSequence(s, sigma)
  {
    if Safe(s) {
      SafeSequenceSound(s);
    } else if sigma :| IsSafeSequence(s, sigma) {
      GreedyComplete(s, sigma);
    }
  }

  // ---------------------------------------------------------------------
  // The safety check and the detection report as the program runs them

  /** Whether process i's need fits work, scanning the resources and
      stopping at the first that does not fit. */
  method NeedFits(s: BankerState, work: seq<int>, i: int) returns (fits: bool)
    requires Shaped(s) && 0 <= i < s.np && |work| == s.nr
    ensures fits == Fits(s, work, i)
  {
    var j := 0;
    while j < s.nr
      invariant 0 <= j <= s.nr
      invariant forall j' :: 0 <= j' < j ==> s.need[i][j'] <= work[j']
    {
      if s.need[i][j] > work[j] {
        return false;
      }
      j := j + 1;
    }
    return true;
  }

  /** Adds process i's allocation to work, resource by resource. */
  method ReleaseInto(s: BankerState, work0: seq<int>, i: int) returns (work: seq<int>)
    requires Shaped(s) && 0 <= i < s.np && |work0| == s.nr
    ensures work == Released(s, work0, i)
  {
    work := work0;
    var k := 0;
    while k < s.nr
      invariant 0 <= k <= s.nr && |work| == s.nr
      invariant forall k' :: 0 <= k' < s.nr ==>
        work[k'] == if k' < k then work0[k'] + s.allocation[i][k'] else work0[k']
    {
      work := work[k := work[k] + s.allocation[i][k]];
      k := k + 1;
    }
  }

  /** One pass over all processes, finishing each unfinished process whose
      need fits the current work; found tells whether anybody finished. */
  method ScanPass(s: BankerState, work0: seq<int>, finish0: seq<bool>, order0: seq<int>)
    returns (work: seq<int>, finish: seq<bool>, order: seq<int>, found: bool)
    requires Shaped(s) && Consistent(s, Scan(work0, finish0, order0, false))
    ensures Scan(work, finish, order, found) == ScanFrom(s, Scan(work0, finish0, order0, false), 0)
  {
    work, finish, order, found := work0, finish0, order0, false;
    var i := 0;
    while i < s.np
      invariant 0 <= i <= s.np
      invariant Consistent(s, Scan(work, finish, order, found))
      invariant ScanFrom(s, Scan(work, finish, order, found), i) ==
                ScanFrom(s, Scan(work0, finish0, order0, false), 0)
    {
      if !finish[i] {
        var fits := NeedFits(s, work, i);
        if fits {
          FinishKeepsConsistent(s, Scan(work, finish, order, found), i);
          work := ReleaseInto(s, work, i);
          order := order + [i];
          finish := finish[i := true];
          found := true;
        }
      }
      i := i + 1;
    }
  }

  /** The safety check: passes until everybody has finished (safe, and the
      order of finishing is a safe sequence) or a pass finishes nobody
      (unsafe, and no unfinished process fits the work left). */
  method IsSafeState(s: BankerState) returns (safe: bool, safeSequence: seq<int>)
    requires Shaped(s)
    ensures safe == Safe(s) && safeSequence == SafetyCheck(s).order
    ensures safe ==> IsSafeSequence(s, safeSequence)
    ensures !safe ==> exists q :: 0 <= q < s.np && q !in safeSequence
    ensures !safe ==> forall q :: 0 <= q < s.np && q !in safeSequence ==>
      !Fits(s, WorkAfter(s, safeSequence), q)
  {
    var work := s.available[..s.nr];
    var finish := seq(s.np, _ => false);
    var order: seq<int> := [];
    while |order| < s.np
      invariant Consistent(s, Scan(work, finish, order, false))
      invariant Passes(s, Scan(work, finish, order, false)) == SafetyCheck(s)
      decreases s.np - |order|
    {
      var found;
      work, finish, order, found := ScanPass(s, work, finish, order);
      if !found {
        UnsafeIsStuck(s);
        return false, order;
      }
    }
    SafeSequenceSound(s);
    return true, order;
  }

  /** The detection loop's own passes: repeat until a pass finishes nobody. */
  ghost function Settle(s: BankerState, st: Scan): (r: Scan)
    requires Shaped(s) && Consistent(s, st)
    decreases s.np - |st.order|
  {
    var next := ScanFrom(s, st.(found := false), 0);
    if !next.found then next else Settle(s, next)
  }

  /** The detection loop ends exactly where the safety check does: running
      one more pass after everybody has finished changes nothing. */
  lemma {:induction false} SettleAgreesWithPasses(s: BankerState, st: Scan)
    requires Shaped(s) && Consistent(s, st)
    ensures Settle(s, st) == Passes(s, st)
    decreases s.np - |st.order|
  {
    var next := ScanFrom(s, st.(found := false), 0);
    if |st.order| < s.np && next.found {
      SettleAgreesWithPasses(s, next);
    }
  }

  /** The detection loop: passes from the start until one finishes nobody;
      the finish flags it leaves are those of the safety check. */
  method FinishFixedPoint(s: BankerState) returns (finish: seq<bool>)
    requires Shaped(s)
    ensures finish == SafetyCheck(s).finish
  {
    var work := s.available[..s.nr];
    finish := seq(s.np, _ => false);
    var order: seq<int> := [];
    var changed := true;
    SettleAgreesWithPasses(s, Initial(s));
    while changed
      invariant Consistent(s, Scan(work, finish, order, false))
      invariant changed ==> Settle(s, Scan(work, finish, order, false)) == SafetyCheck(s)
      invariant !changed ==> Scan(work, finish, order, false) == SafetyCheck(s)
      decreases s.np - |order| + (if changed then 1 else 0)
    {
      work, finish, order, changed := ScanPass(s, work, finish, order);
    }
  }

  /** The unfinished processes in ascending order. */
  method ListUnfinished(finish: seq<bool>) returns (unfinished: seq<int>)
    ensures forall q :: q in unfinished <==> 0 <= q < |finish| && !finish[q]
    ensures forall a, b :: 0 <= a < b < |unfinished| ==> unfinished[a] < unfinished[b]
  {
    unfinished := [];
    var i := 0;
    while i < |finish|
      invariant 0 <= i <= |finish|
      invariant forall q :: q in unfinished <==> 0 <= q < i && !finish[q]
      invariant forall a, b :: 0 <= a < b < |unfinished| ==> unfinished[a] < unfinished[b]
      invariant forall k :: 0 <= k < |unfinished| ==> unfinished[k] < i
    {
      if !finish[i] {
        unfinished := unfinished + [i];
      }
      i := i + 1;
    }
  }

  /** Detection: 0 when the safety check succeeds; otherwise 1, reporting in
      ascending order the processes left unfinished once no pass finishes
      anybody, none of which fits the work that is left. */
  method DetectDeadlock(s: BankerState) returns (code: int, deadlocked: seq<int>)
    requires Shaped(s)
    ensures code == (if Safe(s) then 0 else 1)
    ensures code == 0 ==> deadlocked == []
    ensures code == 1 ==> |deadlocked| > 0
    ensures code == 1 ==> forall q :: 0 <= q < s.np ==> (q in deadlocked <==> q !in SafetyCheck(s).order)
    ensures code == 1 ==> forall q :: q in deadlocked ==> 0 <= q < s.np && !Fits(s, SafetyCheck(s).work, q)
    ensures forall a, b :: 0 <= a < b < |deadlocked| ==> deadlocked[a] < deadlocked[b]
  {
    var safe, _ := IsSafeState(s);
    if safe {
      return 0, [];
    }
    var finish := FinishFixedPoint(s);
    deadlocked := ListUnfinished(finish);
    UnsafeIsStuck(s);
    code := 1;
  }

  // ---------------------------------------------------------------------
  // Requests and releases

  /** The request stays within process p's remaining claim. */
  ghost predicate WithinClaim(s: BankerState, p: int, request: seq<int>)
    requires Shaped(s) && 0 <= p < s.np && |request| == MaxResources
  {
    forall j :: 0 <= j < s.nr ==> request[j] <= s.need[p][j]
  }

  /** The request can be met from what is available. */
  ghost predicate WithinAvailable(s: BankerState, request: seq<int>)
    requires Shaped(s) && |request| == MaxResources
  {
    forall j :: 0 <= j < s.nr ==> request[j] <= s.available[j]
  }

  /** The state with the request moved, for the first upTo resource types,
      from available into process p's allocation and out of its need. */
  function GrantedUpTo(s: BankerState, p: int, request: seq<int>, upTo: int): (t: BankerState)
    requires Shaped(s) && 0 <= p < s.np && |request| == MaxResources && 0 <= upTo <= s.nr
    ensures Shaped(t)
  {
    s.(available := seq(MaxResources, j requires 0 <= j < MaxResources =>
                          if j < upTo then s.available[j] - request[j] else s.available[j]),
       allocation := s.allocation[p := seq(MaxResources, j requires 0 <= j < MaxResources =>
                          if j < upTo then s.allocation[p][j] + request[j] else s.allocation[p][j])],
       need := s.need[p := seq(MaxResources, j requires 0 <= j < MaxResources =>
                          if j < upTo then s.need[p][j] - request[j] else s.need[p][j])])
  }

  /** The tentative state of a request: the whole request granted. The
      counts and maximum claims stay, and need stays maximum minus
      allocation. */
  function Tentative(s: BankerState, p: int, request: seq<int>): (t: BankerState)
    requires Shaped(s) && 0 <= p < s.np && |request| == MaxResources
    ensures Shaped(t) && t.np == s.np && t.nr == s.nr && t.maximum == s.maximum
    ensures NeedConsistent(s) ==> NeedConsistent(t)
  {
    GrantedUpTo(s, p, request, s.nr)
  }

  lemma GrantedNone(s: BankerState, p: int, request: seq<int>)
    requires Shaped(s) && 0 <= p < s.np && |request| == MaxResources
    ensures GrantedUpTo(s, p, request, 0) == s
  {
    var t := GrantedUpTo(s, p, request, 0);
    assert t.available == s.available;
    assert t.allocation[p] == s.allocation[p];
    assert t.need[p] == s.need[p];
  }

  lemma GrantedStep(s: BankerState, p: int, request: seq<int>, j: int)
    requires Shaped(s) && 0 <= p < s.np && |request| == MaxResources && 0 <= j < s.nr
    ensures var t := GrantedUpTo(s, p, request, j);
      GrantedUpTo(s, p, request, j + 1) ==
        t.(available := t.available[j := t.available[j] - request[j]],
           allocation := t.allocation[p := t.allocation[p][j := t.allocation[p][j] + request[j]]],
           need := t.need[p := t.need[p][j := t.need[p][j] - request[j]]])
  {
    var t := GrantedUpTo(s, p, request, j);
    var u := GrantedUpTo(s, p, request, j + 1);
    assert u.available == t.available[j := t.available[j] - request[j]];
    assert u.allocation[p] == t.allocation[p][j := t.allocation[p][j] + request[j]];
    assert u.need[p] == t.need[p][j := t.need[p][j] - request[j]];
  }

  /** The units of resource type j in the system: available plus allocated. */
  function Total(s: BankerState, j: int): int
    requires Shaped(s) && 0 <= j < s.nr
  {
    s.available[j] + Sum(Column(s.allocation[..s.np], j))
  }

  /** Granting a request moves units from available to the process and
      leaves every resource type's total unchanged. */
  lemma TentativeConserves(s: BankerState, p: int, request: seq<int>)
    requires Shaped(s) && 0 <= p < s.np && |request| == MaxResources
    ensures forall j :: 0 <= j < s.nr ==> Total(Tentative(s, p, request), j) == Total(s, j)
  {
    var t := Tentative(s, p, request);
    forall j | 0 <= j < s.nr
      ensures Total(t, j) == Total(s, j)
    {
      var col := Column(s.allocation[..s.np], j);
      assert Column(t.allocation[..s.np], j) == col[p := s.allocation[p][j] + request[j]];
      SumUpdate(col, p, s.allocation[p][j] + request[j]);
    }
  }

  /** The state with process p's allocation of the first upTo resource
      types returned to available. */
  function ReleasedUpTo(s: BankerState, p: int, upTo: int): (t: BankerState)
    requires Shaped(s) && 0 <= p < s.np && 0 <= upTo <= s.nr
    ensures Shaped(t)
  {
    s.(available := seq(MaxResources, j requires 0 <= j < MaxResources =>
                          if j < upTo then s.available[j] + s.allocation[p][j] else s.available[j]),
       allocation := s.allocation[p := seq(MaxResources, j requires 0 <= j < MaxResources =>
                          if j < upTo then 0 else s.allocation[p][j])])
  }

  /** The state once process p has released everything it holds. */
  function Release(s: BankerState, p: int): (t: BankerState)
    requires Shaped(s) && 0 <= p < s.np
    ensures Shaped(t)
  {
    ReleasedUpTo(s, p, s.nr)
  }

  lemma ReleasedNone(s: BankerState, p: int)
    requires Shaped(s) && 0 <= p < s.np
    ensures ReleasedUpTo(s, p, 0) == s
  {
    var t := ReleasedUpTo(s, p, 0);
    assert t.available == s.available;
    assert t.allocation[p] == s.allocation[p];
  }

  lemma ReleasedStep(s: BankerState, p: int, j: int)
    requires Shaped(s) && 0 <= p < s.np && 0 <= j < s.nr
    ensures var t := ReleasedUpTo(s, p, j);
      ReleasedUpTo(s, p, j + 1) ==
        t.(available := t.available[j := t.available[j] + t.allocation[p][j]],
           allocation := t.allocation[p := t.allocation[p][j := 0]])
  {
    var t := ReleasedUpTo(s, p, j);
    var u := ReleasedUpTo(s, p, j + 1);
    assert u.available == t.available[j := t.available[j] + t.allocation[p][j]];
    assert u.allocation[p] == t.allocation[p][j := 0];
  }

  /** Releasing moves process p's whole in-use row into available, zeroes
      it, leaves every other process alone and keeps every total. */
  lemma ReleaseMovesRow(s: BankerState, p: int)
    requires Shaped(s) && 0 <= p < s.np
    ensures forall j :: 0 <= j < s.nr ==>
      Release(s, p).available[j] == s.available[j] + s.allocation[p][j] &&
      Release(s, p).allocation[p][j] == 0
    ensures forall i :: 0 <= i < MaxProcesses && i != p ==> Release(s, p).allocation[i] == s.allocation[i]
    ensures forall j :: 0 <= j < s.nr ==> Total(Release(s, p), j) == Total(s, j)
  {
    var t := Release(s, p);
    forall j | 0 <= j < s.nr
      ensures Total(t, j) == Total(s, j)
    {
      var col := Column(s.allocation[..s.np], j);
      assert Column(t.allocation[..s.np], j) == col[p := 0];
      SumUpdate(col, p, 0);
    }
  }

  /** The program's system state, updated in place by its operations. */
  class BankerSystem {
    var numProcesses: int
    var numResources: int
    var allocation: seq<seq<int>>
    var maximum: seq<seq<int>>
    var available: seq<int>
    var need: seq<seq<int>>

    function State(): BankerState
      reads this
    {
      BankerState(numProcesses, numResources, allocation, maximum, available, need)
    }

    ghost predicate Valid()
      reads this
    {
      Shaped(State())
    }

    /** A system holding the given counts and tables. */
    constructor (s: BankerState)
      requires Shaped(s)
      ensures Valid() && State() == s
    {
      numProcesses, numResources := s.np, s.nr;
      allocation, maximum, available, need := s.allocation, s.maximum, s.available, s.need;
    }

    /** Sets every in-use need cell to maximum minus allocation, row by row. */
    method CalculateNeed()
      requires Valid()
      modifies this`need
      ensures State() == old(State()).(need := NeedTable(old(State())))
      ensures Valid() && NeedConsistent(State())
    {
      ghost var s0 := State();
      var i := 0;
      while i < numProcesses
        invariant 0 <= i <= numProcesses && |need| == MaxProcesses
        invariant forall i' :: 0 <= i' < MaxProcesses ==>
          need[i'] == if i' < i then NeedTable(s0)[i'] else s0.need[i']
      {
        var row := need[i];
        var j := 0;
        while j < numResources
          invariant 0 <= j <= numResources && |row| == MaxResources
          invariant forall j' :: 0 <= j' < MaxResources ==>
            row[j'] == if j' < j then maximum[i][j'] - allocation[i][j'] else s0.need[i][j']
        {
          row := row[j := maximum[i][j] - allocation[i][j]];
          j := j + 1;
        }
        assert row == NeedTable(s0)[i];
        need := need[i := row];
        i := i + 1;
      }
      NeedTableConsistent(s0);
      assert need == NeedTable(s0);
    }

    /** Whether the request stays within process p's remaining claim,
        scanning until the first resource type that exceeds it. */
    method ClaimCovers(p: int, request: seq<int>) returns (ok: bool)
      requires Valid() && 0 <= p < numProcesses && |request| == MaxResources
      ensures ok == WithinClaim(State(), p, request)
    {
      var i := 0;
      while i < numResources
        invariant 0 <= i <= numResources
        invariant forall j :: 0 <= j < i ==> request[j] <= need[p][j]
      {
        if request[i] > need[p][i] {
          return false;
        }
        i := i + 1;
      }
      return true;
    }

    /** Whether what is available covers the request. */
    method AvailableCovers(request: seq<int>) returns (ok: bool)
      requires Valid() && |request| == MaxResources
      ensures ok == WithinAvailable(State(), request)
    {
      var i := 0;
      while i < numResources
        invariant 0 <= i <= numResources
        invariant forall j :: 0 <= j < i ==> request[j] <= available[j]
      {
        if request[i] > available[i] {
          return false;
        }
        i := i + 1;
      }
      return true;
    }

    /** Moves the request from available into process p's allocation and
        out of its need. */
    method Allocate(p: int, request: seq<int>)
      requires Valid() && 0 <= p < numProcesses && |request| == MaxResources
      modifies this`available, this`allocation, this`need
      ensures Valid() && State() == Tentative(old(State()), p, request)
    {
      ghost var s0 := State();
      GrantedNone(s0, p, request);
      var i := 0;
      while i < numResources
        invariant 0 <= i <= numResources
        invariant State() == GrantedUpTo(s0, p, request, i)
      {
        GrantedStep(s0, p, request, i);
        available := available[i := available[i] - request[i]];
        allocation := allocation[p := allocation[p][i := allocation[p][i] + request[i]]];
        need := need[p := need[p][i := need[p][i] - request[i]]];
        i := i + 1;
      }
    }

    /** The Banker's request: refused, with nothing changed, when it exceeds
        the process's remaining claim or what is available; otherwise granted
        tentatively and kept only if the resulting state passes the safety
        check, the saved tables being restored when it does not. */
    method RequestResources(p: int, request: seq<int>) returns (granted: bool)
      requires Valid() && 0 <= p < numProcesses && |request| == MaxResources
      modifies this`available, this`allocation, this`need
      ensures Valid()
      ensures granted <==> WithinClaim(old(State()), p, request) &&
                           WithinAvailable(old(State()), request) &&
                           Safe(Tentative(old(State()), p, request))
      ensures State() == if granted then Tentative(old(State()), p, request) else old(State())
    {
      var ok := ClaimCovers(p, request);
      if !ok {
        return false;
      }
      ok := AvailableCovers(request);
      if !ok {
        return false;
      }
      var tempAvailable, tempAllocation, tempNeed := available, allocation, need;
      Allocate(p, request);
      var safeSequence;
      granted, safeSequence := IsSafeState(State());
      if !granted {
        available, allocation, need := tempAvailable, tempAllocation, tempNeed;
      }
    }

    /** Returns everything process p holds to available. */
    method ReleaseResources(p: int)
      requires Valid() && 0 <= p < numProcesses
      modifies this`available, this`allocation
      ensures Valid() && State() == Release(old(State()), p)
    {
      ghost var s0 := State();
      ReleasedNone(s0, p);
      var i := 0;
      while i < numResources
        invariant 0 <= i <= numResources
        invariant State() == ReleasedUpTo(s0, p, i)
      {
        ReleasedStep(s0, p, i);
        available := available[i := available[i] + allocation[p][i]];
        allocation := allocation[p := allocation[p][i := 0]];
        i := i + 1;
      }
    }
  }
}
