// Sums and counts over sequences, shared by the graph, detector and
// Banker's models.

module Sums {

  /** Sum of a sequence of integers, peeling off the last element so that a
      loop summing in ascending order steps from s[..i] to s[..i+1]. */
  function Sum(s: seq<int>): int
  {
    if |s| == 0 then 0 else Sum(s[..|s| - 1]) + s[|s| - 1]
  }

  /** Number of elements of s satisfying f. */
  function CountWhere<T>(s: seq<T>, f: T -> bool): (n: nat)
    ensures n <= |s|
  {
    if |s| == 0 then 0 else CountWhere(s[..|s| - 1], f) + (if f(s[|s| - 1]) then 1 else 0)
  }

  /** Column c of a matrix given as a sequence of rows. */
  function Column(m: seq<seq<int>>, c: int): (col: seq<int>)
    requires 0 <= c && forall p :: 0 <= p < |m| ==> c < |m[p]|
    ensures |col| == |m| && forall p :: 0 <= p < |m| ==> col[p] == m[p][c]
  {
    seq(|m|, p requires 0 <= p < |m| => m[p][c])
  }

  function Zeros(n: nat): (z: seq<int>)
    ensures |z| == n && forall i :: 0 <= i < n ==> z[i] == 0
  {
    seq(n, _ => 0)
  }

  lemma {:induction false} SumPrefixStep(s: seq<int>, i: nat)
    requires i < |s|
    ensures Sum(s[..i + 1]) == Sum(s[..i]) + s[i]
  {
    assert s[..i + 1][..i] == s[..i];
  }

  /** Changing one element changes the sum by the difference. */
  lemma {:induction false} SumUpdate(s: seq<int>, i: nat, v: int)
    requires i < |s|
    ensures Sum(s[i := v]) == Sum(s) - s[i] + v
  {
    var t := s[i := v];
    if i == |s| - 1 {
      assert t[..|t| - 1] == s[..|s| - 1];
    } else {
      assert t[..|t| - 1] == s[..|s| - 1][i := v];
      SumUpdate(s[..|s| - 1], i, v);
    }
  }

  lemma {:induction false} SumOfZeros(s: seq<int>)
    requires forall i :: 0 <= i < |s| ==> s[i] == 0
    ensures Sum(s) == 0
  {
    if |s| > 0 {
      SumOfZeros(s[..|s| - 1]);
    }
  }

  lemma {:induction false} SumNonNegative(s: seq<int>)
    requires forall i :: 0 <= i < |s| ==> s[i] >= 0
    ensures Sum(s) >= 0
    ensures Sum(s) == 0 ==> forall i :: 0 <= i < |s| ==> s[i] == 0
  {
    if |s| > 0 {
      SumNonNegative(s[..|s| - 1]);
      assert forall i :: 0 <= i < |s| - 1 ==> s[..|s| - 1][i] == s[i];
    }
  }

  lemma {:induction false} CountWhereUpdate<T>(s: seq<T>, f: T -> bool, i: nat, x: T)
    requires i < |s|
    ensures CountWhere(s[i := x], f) ==
            CountWhere(s, f) - (if f(s[i]) then 1 else 0) + (if f(x) then 1 else 0)
  {
    var t := s[i := x];
    if i == |s| - 1 {
      assert t[..|t| - 1] == s[..|s| - 1];
    } else {
      assert t[..|t| - 1] == s[..|s| - 1][i := x];
      CountWhereUpdate(s[..|s| - 1], f, i, x);
    }
  }

  lemma {:induction false} CountWherePrefixStep<T>(s: seq<T>, f: T -> bool, i: nat)
    requires i < |s|
    ensures CountWhere(s[..i + 1], f) == CountWhere(s[..i], f) + (if f(s[i]) then 1 else 0)
  {
    assert s[..i + 1][..i] == s[..i];
  }

  /** An element satisfying f is counted: the count is positive. */
  lemma {:induction false} CountWherePositive<T>(s: seq<T>, f: T -> bool, i: nat)
    requires i < |s| && f(s[i])
    ensures CountWhere(s, f) > 0
  {
    if i < |s| - 1 {
      CountWherePositive(s[..|s| - 1], f, i);
    }
  }

  /** Two predicates that never hold together count at most |s| between them. */
  lemma {:induction false} CountWhereDisjoint<T>(s: seq<T>, f: T -> bool, g: T -> bool)
    requires forall i :: 0 <= i < |s| ==> !(f(s[i]) && g(s[i]))
    ensures CountWhere(s, f) + CountWhere(s, g) <= |s|
  {
    if |s| > 0 {
      CountWhereDisjoint(s[..|s| - 1], f, g);
    }
  }

  /** True when some element of the row is positive. */
  ghost predicate HasPositive(row: seq<int>)
  {
    exists i :: 0 <= i < |row| && row[i] > 0
  }

  /** Index of the first element from `from` on that satisfies f, or -1. */
  function FirstIndex<T>(s: seq<T>, f: T -> bool, from: nat): (i: int)
    requires from <= |s|
    ensures i == -1 ==> forall j :: from <= j < |s| ==> !f(s[j])
    ensures i != -1 ==> from <= i < |s| && f(s[i]) && forall j :: from <= j < i ==> !f(s[j])
    decreases |s| - from
  {
    if from == |s| then -1 else if f(s[from]) then from else FirstIndex(s, f, from + 1)
  }

  lemma {:induction false} CountWhereNone<T>(s: seq<T>, f: T -> bool)
    requires forall i :: 0 <= i < |s| ==> !f(s[i])
    ensures CountWhere(s, f) == 0
  {
    if |s| > 0 {
      CountWhereNone(s[..|s| - 1], f);
    }
  }

  /** With no negative entries, the sum is at least any single entry. */
  lemma {:induction false} SumPositive(s: seq<int>, i: nat)
    requires i < |s| && forall j :: 0 <= j < |s| ==> s[j] >= 0
    ensures Sum(s) >= s[i]
  {
    var init := s[..|s| - 1];
    assert forall j :: 0 <= j < |init| ==> init[j] == s[j];
    SumNonNegative(init);
    if i < |s| - 1 {
      SumPositive(init, i);
    }
  }

  /** Sum of all entries, row by row. */
  function MatrixSum(m: seq<seq<int>>): int
  {
    if |m| == 0 then 0 else MatrixSum(m[..|m| - 1]) + Sum(m[|m| - 1])
  }

  /** The sums of the columns of a matrix whose rows all have the given width. */
  ghost function ColumnSums(m: seq<seq<int>>, width: nat): (sums: seq<int>)
    requires forall p :: 0 <= p < |m| ==> |m[p]| == width
    ensures |sums| == width
  {
    seq(width, c requires 0 <= c < width => Sum(Column(m, c)))
  }

  lemma {:induction false} SumPointwise(a: seq<int>, b: seq<int>)
    requires |a| == |b|
    ensures Sum(seq(|a|, i requires 0 <= i < |a| => a[i] + b[i])) == Sum(a) + Sum(b)
  {
    var ab := seq(|a|, i requires 0 <= i < |a| => a[i] + b[i]);
    if |a| > 0 {
      var n := |a| - 1;
      SumPointwise(a[..n], b[..n]);
      assert ab[..n] == seq(n, i requires 0 <= i < n => a[..n][i] + b[..n][i]);
    }
  }

  /** Adding a last row adds it to the column sums entry by entry. */
  lemma ColumnSumsSnoc(m: seq<seq<int>>, width: nat)
    requires |m| > 0 && forall p :: 0 <= p < |m| ==> |m[p]| == width
    ensures ColumnSums(m, width) ==
            seq(width, i requires 0 <= i < width => ColumnSums(m[..|m| - 1], width)[i] + m[|m| - 1][i])
  {
    var n := |m| - 1;
    forall c | 0 <= c < width
      ensures ColumnSums(m, width)[c] == ColumnSums(m[..n], width)[c] + m[n][c]
    {
      assert Column(m, c)[..n] == Column(m[..n], c);
    }
  }

  /** Summing row by row and column by column gives the same total. */
  lemma {:induction false} MatrixSumByColumns(m: seq<seq<int>>, width: nat)
    requires forall p :: 0 <= p < |m| ==> |m[p]| == width
    ensures MatrixSum(m) == Sum(ColumnSums(m, width))
  {
    if |m| == 0 {
      SumOfZeros(ColumnSums(m, width));
    } else {
      var n := |m| - 1;
      MatrixSumByColumns(m[..n], width);
      ColumnSumsSnoc(m, width);
      SumPointwise(ColumnSums(m[..n], width), m[n]);
    }
  }

  /** Every element satisfies f exactly when all of them are counted. */
  lemma {:induction false} CountWhereFull<T>(s: seq<T>, f: T -> bool)
    ensures CountWhere(s, f) == |s| <==> forall i :: 0 <= i < |s| ==> f(s[i])
  {
    if |s| > 0 {
      CountWhereFull(s[..|s| - 1], f);
      assert forall i :: 0 <= i < |s| - 1 ==> s[..|s| - 1][i] == s[i];
    }
  }

  /** A pointwise smaller sequence has a smaller sum. */
  lemma {:induction false} SumMonotone(a: seq<int>, b: seq<int>)
    requires |a| == |b| && forall i :: 0 <= i < |a| ==> a[i] <= b[i]
    ensures Sum(a) <= Sum(b)
  {
    if |a| > 0 {
      SumMonotone(a[..|a| - 1], b[..|b| - 1]);
    }
  }
}
