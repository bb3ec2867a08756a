/**
 * Bubble sort as a step-producing generator (static/js/algorithms/bubbleSort.js).
 */
module Bubble {
  import opened Snapshots
  import opened Stepper

  /** `sorted.sort((a, b) => a - b)`: the numbers of `s` in ascending order. */
  function SortNumbers(s: seq<int>): (r: seq<int>)
    ensures multiset(r) == multiset(s)
  {
    if s == [] then []
    else
      assert s == s[..|s| - 1] + [s[|s| - 1]];
      Insert(SortNumbers(s[..|s| - 1]), s[|s| - 1])
  }

  lemma {:induction false} SortNumbersSorted(s: seq<int>)
    ensures IsSorted(SortNumbers(s))
  {
    if s != [] {
      SortNumbersSorted(s[..|s| - 1]);
      InsertSorted(SortNumbers(s[..|s| - 1]), s[|s| - 1]);
    }
  }

  /** `x` placed into `s` before the first element not smaller than it. */
  function Insert(s: seq<int>, x: int): (r: seq<int>)
    ensures multiset(r) == multiset(s) + multiset{x}
    ensures r[0] == x || (s != [] && r[0] == s[0])
  {
    if s == [] || x <= s[0] then [x] + s
    else
      assert s == [s[0]] + s[1..];
      [s[0]] + Insert(s[1..], x)
  }

  lemma {:induction false} InsertSorted(s: seq<int>, x: int)
    requires IsSorted(s)
    ensures IsSorted(Insert(s, x))
  {
    if s == [] || x <= s[0] {
      var r := [x] + s;
      forall q | 0 <= q < |r|
        ensures TopOf(r, q)
      {
        forall p | 0 <= p < q
          ensures r[p] <= r[q]
        {
          SortedAt(s, if p == 0 then 0 else p - 1, q - 1);
        }
      }
    } else {
      var rest := Insert(s[1..], x);
      SortedTail(s);
      InsertSorted(s[1..], x);
      if |s| > 1 {
        SortedAt(s, 0, 1);
      }
      var r := [s[0]] + rest;
      forall q | 0 <= q < |r|
        ensures TopOf(r, q)
      {
        forall p | 0 <= p < q
          ensures r[p] <= r[q]
        {
          SortedAt(rest, if p == 0 then 0 else p - 1, q - 1);
        }
      }
    }
  }

  /**
   * Passes already done: every element at or past `m` is at least every
   * element before it, so `s[m..]` is sorted and holds the largest values.
   */
  ghost predicate SettledFrom(s: seq<int>, m: int) {
    forall q :: 0 <= m <= q < |s| ==> TopOf(s, q)
  }

  lemma {:induction false} OrderedSorted(s: seq<int>, m: int)
    requires 0 <= m && SettledFrom(s, m) && OrderedThrough(s, m - 1)
    ensures IsSorted(s)
  {
    forall q | 0 <= q < |s|
      ensures TopOf(s, q)
    {
      if q >= m {
        assert TopOf(s, q);
      }
    }
  }

  /**
   * Inside a pass that will settle position `m - 1`: positions from `m` on are
   * settled, `s[j]` is the largest of `s[0..j]`, and if the pass has not
   * exchanged anything yet then `s[0..j]` is in order.
   */
  ghost predicate PassInvariant(s: seq<int>, m: int, j: int, clean: bool) {
    0 <= j < m <= |s| && SettledFrom(s, m) && TopOf(s, j) &&
    (clean ==> OrderedThrough(s, j))
  }

  /** One compare-and-maybe-exchange step of a pass keeps `PassInvariant`. */
  lemma {:induction false} PassStep(s: seq<int>, m: int, j: int, clean: bool)
    requires j + 1 < m && PassInvariant(s, m, j, clean)
    ensures s[j] > s[j + 1] ==> PassInvariant(Exchanged(s, j, j + 1), m, j + 1, false)
    ensures s[j] <= s[j + 1] ==> PassInvariant(s, m, j + 1, clean)
  {
    if s[j] > s[j + 1] {
      var u := Exchanged(s, j, j + 1);
      forall q | 0 <= m <= q < |u|
        ensures TopOf(u, q)
      {
        assert TopOf(s, q);
        forall p | 0 <= p < q
          ensures u[p] <= u[q]
        {
          if p == j { assert u[p] == s[j + 1]; } else if p == j + 1 { assert u[p] == s[j]; }
        }
      }
      forall p | 0 <= p < j + 1
        ensures u[p] <= u[j + 1]
      {
      }
    } else {
      forall p | 0 <= p < j + 1
        ensures s[p] <= s[j + 1]
      {
      }
    }
  }

  /**
   * Pass `i` of the outer loop: compare every neighbour pair of `array[0..n-i)`
   * and exchange it when the left value is strictly greater.
   */
  method BubblePass(r: Run, i: int) returns (swapped: bool)
    requires r.Valid() && 0 <= i < r.a.Length - 1
    requires SettledFrom(r.a[..], r.a.Length - i) && Disciplined(r.trace)
    modifies r, r.a
    ensures r.Valid() && r.sorted == old(r.sorted)
    ensures SettledFrom(r.a[..], r.a.Length - i - 1)
    ensures !swapped ==> OrderedThrough(r.a[..], r.a.Length - i - 1)
    ensures Disciplined(r.trace)
    ensures r.comparisons == old(r.comparisons) + r.a.Length - i - 1
    ensures r.swaps >= old(r.swaps) && (swapped <==> r.swaps > old(r.swaps))
    ensures IsSorted(old(r.a[..])) ==> !swapped
  {
    var n := r.a.Length;
    ghost var start := r.a[..];
    swapped := false;
    var j := 0;
    while j < n - i - 1
      invariant 0 <= j <= n - i - 1
      invariant r.Valid() && r.sorted == old(r.sorted)
      invariant Disciplined(r.trace)
      invariant PassInvariant(r.a[..], n - i, j, !swapped)
      invariant r.comparisons == old(r.comparisons) + j
      invariant r.swaps >= old(r.swaps) && (swapped <==> r.swaps > old(r.swaps))
      invariant IsSorted(start) ==> !swapped && r.a[..] == start
    {
      PassStep(r.a[..], n - i, j, !swapped);
      if IsSorted(start) {
        SortedAt(start, j, j + 1);
      }
      var exchanged := CompareNeighbours(r, j);
      swapped := swapped || exchanged;
      j := j + 1;
    }
  }

  /** An index list holding each of `0 .. all-1` once sorts to `Range(0, all)`. */
  lemma SortedIndices(s: seq<int>, all: int)
    requires multiset(s) == multiset(Range(0, all))
    ensures SortNumbers(s) == Range(0, all)
  {
    SortNumbersSorted(s);
    SortedUnique(SortNumbers(s), Range(0, all));
  }

  /**
   * The index list the passes leave behind: `1 .. n-1` after all of them
   * (nothing when `n` is 0), or `exit .. n-1` followed by `0 .. exit-1` when
   * the pass that settled `exit` made no exchange (`exit >= 0`).
   */
  ghost function ListAfterPasses(n: nat, exit: int): (s: seq<int>)
    ensures exit < n ==> |s| == if exit >= 0 then n else if n == 0 then 0 else n - 1
  {
    if exit < 0 then Range(if n == 0 then 0 else 1, n) else Range(exit, n) + Range(0, exit)
  }

  /** With `0` added when missing, the list holds each index once (just `[0]` when `n` is 0). */
  lemma ListAfterPassesComplete(n: nat, exit: int)
    requires exit < n
    ensures var s := ListAfterPasses(n, exit);
      var all := if n == 0 then 1 else n;
      multiset(if 0 in s then s else s + [0]) == multiset(Range(0, all))
  {
    if exit < 0 {
      FullPassesComplete(n);
    } else {
      EarlyExitComplete(n, exit);
    }
  }

  /** Without an early exit `0` is missing, and adding it completes the list. */
  lemma FullPassesComplete(n: nat)
    ensures var s := Range(if n == 0 then 0 else 1, n);
      0 !in s && multiset(s + [0]) == multiset(Range(0, if n == 0 then 1 else n))
  {
    RangeMember(if n == 0 then 0 else 1, n, 0);
    if n >= 1 {
      RangeSplit(0, 1, n);
      assert Range(1, n) + [0] == Range(1, n) + Range(0, 1);
    }
  }

  /** An early exit at `exit` leaves every index in the list once. */
  lemma EarlyExitComplete(n: nat, exit: nat)
    requires exit < n
    ensures var s := Range(exit, n) + Range(0, exit);
      0 in s && multiset(s) == multiset(Range(0, n))
  {
    RangeSplit(0, exit, n);
    RangeMember(0, n, 0);
  }

  /**
   * After the passes: `if (!sorted.includes(0)) sorted.push(0)`, then the
   * index list sorted numerically.
   */
  method CompleteSortedList(r: Run, ghost exit: int)
    requires exit < r.a.Length && r.sorted == ListAfterPasses(r.a.Length, exit)
    modifies r`sorted
    ensures r.sorted == Range(0, if r.a.Length == 0 then 1 else r.a.Length)
  {
    ghost var all := if r.a.Length == 0 then 1 else r.a.Length;
    ListAfterPassesComplete(r.a.Length, exit);
    if 0 !in r.sorted {
      r.sorted := r.sorted + [0];
    }
    SortedIndices(r.sorted, all);
    r.sorted := SortNumbers(r.sorted);
  }

  /**
   * One iteration of the outer loop: pass `i`, then `sorted.unshift(n - i - 1)`
   * and a quiet snapshot; a pass without exchanges then marks every remaining
   * index sorted (the early exit).
   */
  method PassAndShow(r: Run, i: int) returns (swapped: bool)
    requires r.Valid() && 0 <= i < r.a.Length - 1 && Disciplined(r.trace)
    requires SettledFrom(r.a[..], r.a.Length - i) && r.sorted == Range(r.a.Length - i, r.a.Length)
    modifies r, r.a
    ensures r.Valid() && Disciplined(r.trace)
    ensures SettledFrom(r.a[..], r.a.Length - i - 1)
    ensures swapped ==> r.sorted == Range(r.a.Length - i - 1, r.a.Length)
    ensures !swapped ==> IsSorted(r.a[..])
    ensures !swapped ==> r.sorted == Range(r.a.Length - i - 1, r.a.Length) + Range(0, r.a.Length - i - 1)
    ensures r.comparisons == old(r.comparisons) + r.a.Length - i - 1
    ensures r.swaps >= old(r.swaps) && (swapped <==> r.swaps > old(r.swaps))
    ensures IsSorted(old(r.a[..])) ==> !swapped
  {
    swapped := BubblePass(r, i);
    r.sorted := [r.a.Length - i - 1] + r.sorted;
    ghost var t0 := r.trace;
    r.Show(NoPivot);
    NeighbourAppend(t0, Last(r.trace));
    if !swapped {
      MarkPrefixSorted(r, r.a.Length - i - 1);
      OrderedSorted(r.a[..], r.a.Length - i - 1);
    }
  }

  /**
   * The outer loop `for (i = 0; i < n - 1; i++)`: after pass `i` the index
   * `n-i-1` joins `sorted` and a quiet snapshot is yielded; a pass without
   * exchanges marks every remaining index sorted and stops.
   */
  method Passes(r: Run) returns (ghost exit: int)
    requires r.Valid() && r.sorted == [] && Disciplined(r.trace)
    modifies r, r.a
    ensures r.Valid() && Disciplined(r.trace)
    ensures IsSorted(r.a[..]) && exit < r.a.Length && r.sorted == ListAfterPasses(r.a.Length, exit)
    ensures r.swaps == old(r.swaps) && r.a.Length >= 1 ==>
      r.comparisons == old(r.comparisons) + r.a.Length - 1
    ensures IsSorted(old(r.a[..])) ==> r.swaps == old(r.swaps)
  {
    var n := r.a.Length;
    var i := 0;
    while i < n - 1
      invariant 0 <= i && (i <= n - 1 || i == 0)
      invariant r.Valid() && Disciplined(r.trace)
      invariant SettledFrom(r.a[..], n - i) && r.sorted == Range(n - i, n)
      invariant i == 0 ==>
        r.a[..] == old(r.a[..]) && r.comparisons == old(r.comparisons) && r.swaps == old(r.swaps)
      invariant i > 0 ==> r.swaps > old(r.swaps) && !IsSorted(old(r.a[..]))
    {
      var swapped := PassAndShow(r, i);
      if !swapped {
        exit := n - i - 1;
        return;
      }
      i := i + 1;
    }
    if n >= 1 {
      OrderedSorted(r.a[..], 1);
    }
    exit := -1;
  }

  /**
   * Bubble sort: repeated passes over a shrinking prefix, stopping early after
   * a pass that exchanged nothing; ends with a quiet snapshot listing every
   * index as sorted.
   */
  method BubbleSort(input: seq<int>) returns (trace: seq<StepState>, outcome: Outcome)
    ensures WellFormed(input, trace) && Permutations(input, trace)
    ensures IsSorted(Last(trace).values)
    ensures NeighbourSwapping(trace)
    ensures Last(trace).sorted == if |input| == 0 then [0] else Range(0, |input|)
    ensures IsSorted(input) && |input| >= 1 ==>
      Last(trace).comparisons == |input| - 1 && Last(trace).swaps == 0
    ensures outcome == Outcome(Last(trace).values, Last(trace).comparisons, Last(trace).swaps)
  {
    var r: Run := new Run(input);
    ghost var exit := Passes(r);
    CompleteSortedList(r, exit);
    ghost var t1 := r.trace;
    r.Show(NoPivot);
    NeighbourAppend(t1, Last(r.trace));
    trace := r.trace;
    outcome := r.Result();
    ExchangesPermute(input, trace);
  }
}
