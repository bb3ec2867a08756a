/**
 * The snapshot every sorting generator yields, and the properties that a
 * whole trace of snapshots (one run of one generator) is meant to have.
 */
module Snapshots {

  /** The `pivot` of a snapshot that has none: `updateBars` reads a missing pivot as -1. */
  const NoPivot: int := -1

  /**
   * One yielded state `{array, comparing, swapped, sorted, pivot, metrics}`.
   * `metrics` is flattened into the two counters.
   */
  datatype StepState = StepState(
    values: seq<int>,
    comparing: seq<int>,
    swapped: seq<int>,
    sorted: seq<int>,
    pivot: int,
    comparisons: nat,
    swaps: nat)

  /** What an exhausted generator returns: `{ array, comparisons, swaps }`. */
  datatype Outcome = Outcome(values: seq<int>, comparisons: nat, swaps: nat)

  /** The indices `lo, lo+1, ..., hi-1` in ascending order (`Array.from` over a length). */
  function Range(lo: int, hi: int): (r: seq<int>)
    ensures |r| == if lo <= hi then hi - lo else 0
    ensures forall k :: 0 <= k < |r| ==> r[k] == lo + k
    decreases hi - lo
  {
    if lo >= hi then [] else [lo] + Range(lo + 1, hi)
  }

  /** An index list holds exactly the integers of its half-open interval. */
  lemma RangeMember(lo: int, hi: int, x: int)
    ensures x in Range(lo, hi) <==> lo <= x < hi
  {
    if lo <= x < hi {
      assert Range(lo, hi)[x - lo] == x;
    }
  }

  lemma {:induction false} RangeSplit(lo: int, mid: int, hi: int)
    requires lo <= mid <= hi
    ensures Range(lo, mid) + Range(mid, hi) == Range(lo, hi)
  {
    var r := Range(lo, mid) + Range(mid, hi);
    assert |r| == |Range(lo, hi)|;
    forall k | 0 <= k < |r|
      ensures r[k] == Range(lo, hi)[k]
    {
      if k < mid - lo {
        assert r[k] == Range(lo, mid)[k];
      } else {
        assert r[k] == Range(mid, hi)[k - (mid - lo)];
      }
    }
  }

  /** `s[q]` is at least every element before it. */
  ghost predicate TopOf(s: seq<int>, q: int) {
    0 <= q < |s| && forall p :: 0 <= p < q ==> s[p] <= s[q]
  }

  /** Non-decreasing, read left to right: every element is at least every element before it. */
  ghost predicate IsSorted(s: seq<int>) {
    forall q :: 0 <= q < |s| ==> TopOf(s, q)
  }

  /** `s[0..j]` is in ascending order. */
  ghost predicate OrderedThrough(s: seq<int>, j: int) {
    forall q :: 0 <= q <= j && q < |s| ==> TopOf(s, q)
  }

  lemma SortedAt(s: seq<int>, p: int, q: int)
    requires IsSorted(s) && 0 <= p <= q < |s|
    ensures s[p] <= s[q]
  {
    assert TopOf(s, q);
  }

  lemma SortedTail(s: seq<int>)
    requires IsSorted(s) && s != []
    ensures IsSorted(s[1..])
  {
    forall q | 0 <= q < |s| - 1
      ensures TopOf(s[1..], q)
    {
      assert TopOf(s, q + 1);
    }
  }

  /** The first element of a sorted sequence is its minimum. */
  lemma SortedFirst(s: seq<int>, v: int)
    requires IsSorted(s) && v in multiset(s)
    ensures s != [] && s[0] <= v
  {
    var k :| 0 <= k < |s| && s[k] == v;
    SortedAt(s, 0, k);
  }

  /** Two sorted sequences holding the same values are equal. */
  lemma {:induction false} SortedUnique(x: seq<int>, y: seq<int>)
    requires IsSorted(x) && IsSorted(y) && multiset(x) == multiset(y)
    ensures x == y
    decreases |x|
  {
    if |x| > 0 {
      SameHead(x, y);
      DropHead(x);
      DropHead(y);
      SortedTail(x);
      SortedTail(y);
      SortedUnique(x[1..], y[1..]);
      assert x == [x[0]] + x[1..] && y == [y[0]] + y[1..];
    }
  }

  /** Two non-empty sorted sequences holding the same values start with the same value. */
  lemma SameHead(x: seq<int>, y: seq<int>)
    requires IsSorted(x) && IsSorted(y) && multiset(x) == multiset(y) && |x| > 0
    ensures |y| == |x| && x[0] == y[0]
  {
    assert |y| == |multiset(y)| == |multiset(x)| == |x|;
    assert x[0] in multiset(y) && y[0] in multiset(x);
    SortedFirst(y, x[0]);
    SortedFirst(x, y[0]);
  }

  /** Dropping the head removes one occurrence of it. */
  lemma DropHead(x: seq<int>)
    requires |x| > 0
    ensures multiset(x[1..]) == multiset(x) - multiset{x[0]}
  {
    assert x == [x[0]] + x[1..];
  }

  /** `s` with the values at `x` and `y` exchanged (the destructuring swap of the sources). */
  function Exchanged(s: seq<int>, x: int, y: int): (r: seq<int>)
    requires 0 <= x < |s| && 0 <= y < |s|
    ensures |r| == |s| && r[x] == s[y] && r[y] == s[x]
    ensures forall k :: 0 <= k < |s| && k != x && k != y ==> r[k] == s[k]
  {
    s[x := s[y]][y := s[x]]
  }

  /** An exchange permutes. */
  lemma ExchangedPermutes(s: seq<int>, x: int, y: int)
    requires 0 <= x < |s| && 0 <= y < |s|
    ensures multiset(Exchanged(s, x, y)) == multiset(s)
  {
  }

  /** The last snapshot of a non-empty trace. */
  function Last(t: seq<StepState>): StepState
    requires t != []
  {
    t[|t| - 1]
  }

  /** The array as it stands after trace `t` of a run over `input`. */
  function Current(input: seq<int>, t: seq<StepState>): seq<int>
  {
    if t == [] then input else Last(t).values
  }

  /** The array as it stood before snapshot `k`. */
  function Before(input: seq<int>, t: seq<StepState>, k: int): seq<int>
    requires 0 <= k < |t|
  {
    if k == 0 then input else t[k - 1].values
  }

  /**
   * Snapshot `s` shows exactly the change it announces to the array `prev`:
   * an exchange of the two indices in `swapped`, a write of the one index in
   * `swapped`, or nothing at all.
   */
  ghost predicate Follows(prev: seq<int>, s: StepState) {
    |s.values| == |prev| &&
    if |s.swapped| == 2 then
      0 <= s.swapped[0] < |prev| && 0 <= s.swapped[1] < |prev| &&
      s.values == Exchanged(prev, s.swapped[0], s.swapped[1])
    else if |s.swapped| == 1 then
      0 <= s.swapped[0] < |prev| &&
      forall m :: 0 <= m < |prev| && m != s.swapped[0] ==> s.values[m] == prev[m]
    else
      s.swapped == [] && s.values == prev
  }

  /** Snapshot `k` follows from the array as it stood before it. */
  ghost predicate FollowsAt(input: seq<int>, t: seq<StepState>, k: int)
    requires 0 <= k < |t|
  {
    Follows(Before(input, t, k), t[k])
  }

  /** Snapshots are causally ordered: each reflects exactly the mutations announced so far. */
  ghost predicate Causal(input: seq<int>, t: seq<StepState>) {
    forall k :: 0 <= k < |t| ==> FollowsAt(input, t, k)
  }

  /** Counter values after trace `t`: zero before the first snapshot. */
  function Comparisons(t: seq<StepState>): nat {
    if t == [] then 0 else Last(t).comparisons
  }

  function Swaps(t: seq<StepState>): nat {
    if t == [] then 0 else Last(t).swaps
  }

  /**
   * The counters are exact: a snapshot raises `comparisons` by one exactly when
   * it reports a comparison, and `swaps` by one exactly when it reports a swap
   * or write; otherwise both stay as they were.
   */
  ghost predicate Counted(t: seq<StepState>) {
    forall k :: 0 <= k < |t| ==> CountedAt(t, k)
  }

  /** Snapshot `k` bumps each counter by one exactly when it reports that event. */
  ghost predicate CountedAt(t: seq<StepState>, k: int)
    requires 0 <= k < |t|
  {
    t[k].comparisons == Comparisons(t[..k]) + (if t[k].comparing == [] then 0 else 1) &&
    t[k].swaps == Swaps(t[..k]) + (if t[k].swapped == [] then 0 else 1)
  }

  /** The run is well formed: non-empty, causal, counted, and it ends on a quiet snapshot. */
  ghost predicate WellFormed(input: seq<int>, t: seq<StepState>) {
    t != [] && Causal(input, t) && Counted(t) &&
    Last(t).comparing == [] && Last(t).swapped == []
  }

  /** Every snapshot holds a permutation of the input. */
  ghost predicate Permutations(input: seq<int>, t: seq<StepState>) {
    forall k :: 0 <= k < |t| ==> multiset(t[k].values) == multiset(input)
  }

  /** The run only exchanges, never writes a single index, and every exchange moves two distinct indices. */
  ghost predicate RealExchanges(t: seq<StepState>) {
    forall k :: 0 <= k < |t| ==> RealExchangeAt(t, k)
  }

  ghost predicate RealExchangeAt(t: seq<StepState>, k: int)
    requires 0 <= k < |t|
  {
    |t[k].swapped| != 1 && (|t[k].swapped| == 2 ==> t[k].swapped[0] != t[k].swapped[1])
  }

  /** Appending a snapshot that writes nothing and exchanges only distinct indices keeps real exchanges. */
  lemma RealExchangeAppend(t: seq<StepState>, s: StepState)
    requires RealExchanges(t)
    requires |s.swapped| != 1 && (|s.swapped| == 2 ==> s.swapped[0] != s.swapped[1])
    ensures RealExchanges(t + [s])
  {
    var u := t + [s];
    forall k | 0 <= k < |u|
      ensures RealExchangeAt(u, k)
    {
      if k < |t| {
        assert RealExchangeAt(t, k);
        assert u[k] == t[k];
      }
    }
  }

  /** No index is listed twice. */
  ghost predicate NoDup(s: seq<int>) {
    forall p, q :: 0 <= p < q < |s| ==> s[p] != s[q]
  }

  /** Pushing an index that is not yet listed keeps the list free of duplicates. */
  lemma NoDupPush(s: seq<int>, x: int)
    requires NoDup(s) && x !in s
    ensures NoDup(s + [x])
  {
    var u := s + [x];
    forall p, q | 0 <= p < q < |u|
      ensures u[p] != u[q]
    {
      if q < |s| {
        assert u[p] == s[p] && u[q] == s[q];
      } else {
        assert u[p] == s[p];
      }
    }
  }

  lemma RangeNoDup(lo: int, hi: int)
    ensures NoDup(Range(lo, hi))
  {
  }

  /** No snapshot's `sorted` list ever holds an index twice. */
  ghost predicate DistinctMarks(t: seq<StepState>) {
    forall k :: 0 <= k < |t| ==> NoDup(t[k].sorted)
  }

  lemma DistinctAppend(t: seq<StepState>, s: StepState)
    requires DistinctMarks(t) && NoDup(s.sorted)
    ensures DistinctMarks(t + [s])
  {
    var u := t + [s];
    forall k | 0 <= k < |u|
      ensures NoDup(u[k].sorted)
    {
      if k < |t| {
        assert u[k] == t[k];
      }
    }
  }

  /** Every comparison is between neighbours `[j, j+1]`. */
  ghost predicate ComparesNeighbours(t: seq<StepState>) {
    forall k :: 0 <= k < |t| ==> NeighboursAt(t, k)
  }

  ghost predicate NeighboursAt(t: seq<StepState>, k: int)
    requires 0 <= k < |t|
  {
    t[k].comparing != [] ==> |t[k].comparing| == 2 && t[k].comparing[1] == t[k].comparing[0] + 1
  }

  /** The comparison shown by `s` finds its left index strictly greater than its right. */
  ghost predicate Inverted(s: StepState) {
    |s.comparing| == 2 &&
    0 <= s.comparing[0] < |s.values| && 0 <= s.comparing[1] < |s.values| &&
    s.values[s.comparing[0]] > s.values[s.comparing[1]]
  }

  /**
   * Exchanges answer comparisons: a swap snapshot exchanges exactly the pair
   * the snapshot before it compared and found strictly out of order, and a
   * comparison that finds its pair out of order is answered by that swap.
   */
  ghost predicate SwapsAnswerInversions(t: seq<StepState>) {
    (t != [] ==> t[0].swapped == []) &&
    forall k :: 0 < k < |t| ==> AnswersAt(t, k)
  }

  ghost predicate AnswersAt(t: seq<StepState>, k: int)
    requires 0 < k < |t|
  {
    Answers(t[k - 1], t[k])
  }

  /** `s` exchanges exactly when the comparison in `prev` found an inversion, and then exactly that pair. */
  ghost predicate Answers(prev: StepState, s: StepState) {
    (s.swapped != [] ==> s.swapped == prev.comparing && Inverted(prev)) &&
    (Inverted(prev) ==> s.swapped == prev.comparing)
  }

  /**
   * The discipline of the neighbour-swapping sorts: only real exchanges, only
   * neighbours compared, and every exchange answers the inversion just found.
   */
  ghost predicate NeighbourSwapping(t: seq<StepState>) {
    RealExchanges(t) && ComparesNeighbours(t) && SwapsAnswerInversions(t)
  }

  /** Snapshot `s` may come after trace `t` in a neighbour-swapping run. */
  ghost predicate NeighbourStep(t: seq<StepState>, s: StepState) {
    |s.swapped| != 1 && (|s.swapped| == 2 ==> s.swapped[0] != s.swapped[1]) &&
    (s.comparing != [] ==> |s.comparing| == 2 && s.comparing[1] == s.comparing[0] + 1) &&
    (t == [] ==> s.swapped == []) &&
    (t != [] ==> Answers(Last(t), s))
  }

  /**
   * A neighbour-swapping trace between two events: its last comparison, if
   * it is the last snapshot, found no inversion left unanswered.
   */
  ghost predicate Disciplined(t: seq<StepState>) {
    NeighbourSwapping(t) && (t != [] ==> !Inverted(Last(t)))
  }

  lemma NeighbourAppend(t: seq<StepState>, s: StepState)
    requires NeighbourSwapping(t) && NeighbourStep(t, s)
    ensures NeighbourSwapping(t + [s])
  {
    var u := t + [s];
    forall k | 0 <= k < |u|
      ensures RealExchangeAt(u, k) && NeighboursAt(u, k)
    {
      if k < |t| {
        assert RealExchangeAt(t, k) && NeighboursAt(t, k);
        assert u[k] == t[k];
      }
    }
    forall k | 0 < k < |u|
      ensures AnswersAt(u, k)
    {
      if k < |t| {
        assert AnswersAt(t, k);
        assert u[k - 1] == t[k - 1] && u[k] == t[k];
      } else {
        assert u[k - 1] == Last(t);
      }
    }
  }

  /** Number of snapshots in `t` that report a comparison. */
  function ComparisonSteps(t: seq<StepState>): nat {
    if t == [] then 0
    else ComparisonSteps(t[..|t| - 1]) + (if Last(t).comparing == [] then 0 else 1)
  }

  /** Number of snapshots in `t` that report a swap or write. */
  function SwapSteps(t: seq<StepState>): nat {
    if t == [] then 0
    else SwapSteps(t[..|t| - 1]) + (if Last(t).swapped == [] then 0 else 1)
  }

  lemma CountedPrefix(t: seq<StepState>, m: nat)
    requires Counted(t) && m <= |t|
    ensures Counted(t[..m])
  {
    forall k | 0 <= k < m
      ensures CountedAt(t[..m], k)
    {
      assert CountedAt(t, k);
      assert t[..m][..k] == t[..k];
    }
  }

  /** The final counters equal the number of comparison and swap snapshots. */
  lemma {:induction false} CountersAreExact(t: seq<StepState>)
    requires Counted(t)
    ensures Comparisons(t) == ComparisonSteps(t)
    ensures Swaps(t) == SwapSteps(t)
  {
    if t != [] {
      assert CountedAt(t, |t| - 1);
      CountedPrefix(t, |t| - 1);
      CountersAreExact(t[..|t| - 1]);
    }
  }

  /** Neither counter decreases from snapshot `i` to snapshot `j`. */
  lemma {:induction false} CountersMonotoneAt(t: seq<StepState>, i: nat, j: nat)
    requires Counted(t) && i <= j < |t|
    ensures t[i].comparisons <= t[j].comparisons && t[i].swaps <= t[j].swaps
    decreases j
  {
    if i < j {
      assert CountedAt(t, j);
      assert Last(t[..j]) == t[j - 1];
      CountersMonotoneAt(t, i, j - 1);
    }
  }

  /** Neither counter ever decreases along a counted trace. */
  lemma CountersMonotone(t: seq<StepState>)
    requires Counted(t)
    ensures forall i, j :: 0 <= i <= j < |t| ==>
      t[i].comparisons <= t[j].comparisons && t[i].swaps <= t[j].swaps
  {
    forall i, j | 0 <= i <= j < |t|
      ensures t[i].comparisons <= t[j].comparisons && t[i].swaps <= t[j].swaps
    {
      CountersMonotoneAt(t, i, j);
    }
  }

  /** Appending a snapshot that follows from the current array keeps a trace causal. */
  lemma CausalAppend(input: seq<int>, t: seq<StepState>, s: StepState)
    requires Causal(input, t) && Follows(Current(input, t), s)
    ensures Causal(input, t + [s])
  {
    var u := t + [s];
    forall k | 0 <= k < |u|
      ensures FollowsAt(input, u, k)
    {
      if k < |t| {
        assert FollowsAt(input, t, k);
        assert u[k] == t[k] && Before(input, u, k) == Before(input, t, k);
      } else {
        assert Before(input, u, k) == Current(input, t);
      }
    }
  }

  /** Appending a snapshot whose counters are bumped exactly as it reports keeps a trace counted. */
  lemma CountedAppend(t: seq<StepState>, s: StepState)
    requires Counted(t)
    requires s.comparisons == Comparisons(t) + (if s.comparing == [] then 0 else 1)
    requires s.swaps == Swaps(t) + (if s.swapped == [] then 0 else 1)
    ensures Counted(t + [s])
  {
    var u := t + [s];
    forall k | 0 <= k < |u|
      ensures CountedAt(u, k)
    {
      if k < |t| {
        assert CountedAt(t, k);
        assert u[..k] == t[..k] && u[k] == t[k];
      } else {
        assert u[..k] == t;
      }
    }
  }

  lemma FollowsPermutes(prev: seq<int>, s: StepState)
    requires Follows(prev, s) && |s.swapped| != 1
    ensures multiset(s.values) == multiset(prev)
  {
    if |s.swapped| == 2 {
      ExchangedPermutes(prev, s.swapped[0], s.swapped[1]);
    }
  }

  /** Snapshot `k` of a causal trace that only ever exchanges holds a permutation of the input. */
  lemma {:induction false} ExchangesPermuteAt(input: seq<int>, t: seq<StepState>, k: nat)
    requires Causal(input, t) && RealExchanges(t) && k < |t|
    ensures multiset(t[k].values) == multiset(input)
  {
    assert FollowsAt(input, t, k) && RealExchangeAt(t, k);
    FollowsPermutes(Before(input, t, k), t[k]);
    if k > 0 {
      ExchangesPermuteAt(input, t, k - 1);
    }
  }

  /** A causal trace that only ever exchanges holds a permutation of the input at every snapshot. */
  lemma ExchangesPermute(input: seq<int>, t: seq<StepState>)
    requires Causal(input, t) && RealExchanges(t)
    ensures Permutations(input, t)
  {
    forall k | 0 <= k < |t|
      ensures multiset(t[k].values) == multiset(input)
    {
      ExchangesPermuteAt(input, t, k);
    }
  }
}
