/**
 * Quick sort (static/js/algorithms/quickSort.js): Lomuto partition around
 * the last element of the range, then recursion on both sides of the pivot.
 * A pivot is listed in `sorted` as soon as it reaches its final place; a
 * range of one element is listed when the recursion reaches it.
 */
module Quick {
  import opened Snapshots
  import opened Stepper
  import opened Rearrange

  /** Every element of `s[lo..hi]` (both ends included) is below `v`. */
  ghost predicate AllBelow(s: seq<int>, lo: int, hi: int, v: int) {
    forall k :: lo <= k <= hi && 0 <= k < |s| ==> s[k] < v
  }

  /** Every element of `s[lo..hi]` (both ends included) is at least `v`. */
  ghost predicate AllAtLeast(s: seq<int>, lo: int, hi: int, v: int) {
    forall k :: lo <= k <= hi && 0 <= k < |s| ==> s[k] >= v
  }

  /** `s[lo..hi]` (both ends included) is in ascending order. */
  ghost predicate SortedBetween(s: seq<int>, lo: int, hi: int) {
    forall p, q :: lo <= p <= q <= hi && 0 <= p && q < |s| ==> s[p] <= s[q]
  }

  /** None of the indices `lo..hi` is listed yet. */
  ghost predicate Unmarked(sorted: seq<int>, lo: int, hi: int) {
    forall k :: lo <= k <= hi ==> k !in sorted
  }

  /** `after` lists exactly what `before` listed plus the indices `lo..hi`. */
  ghost predicate Covers(after: seq<int>, before: seq<int>, lo: int, hi: int) {
    forall k :: k in after <==> (k in before || lo <= k <= hi)
  }

  /** The trace facts quick sort keeps: only real exchanges, never a duplicate in `sorted`. */
  ghost predicate Tidy(r: Run)
    reads r
  {
    RealExchanges(r.trace) && DistinctMarks(r.trace) && NoDup(r.sorted)
  }

  // ----- lemmas about bounds and order -----

  /** Rearranging a range keeps a strict upper bound on its elements. */
  lemma {:induction false} BelowKept(s: seq<int>, t: seq<int>, lo: int, hi: int, v: int)
    requires 0 <= lo <= hi + 1 <= |s| && Rearranged(s, t, lo, hi) && AllBelow(s, lo, hi, v)
    ensures AllBelow(t, lo, hi, v)
  {
    forall k | lo <= k <= hi && 0 <= k < |t|
      ensures t[k] < v
    {
      RearrangedFrom(s, t, lo, hi, k);
    }
  }

  /** Rearranging a range keeps a lower bound on its elements. */
  lemma {:induction false} AtLeastKept(s: seq<int>, t: seq<int>, lo: int, hi: int, v: int)
    requires 0 <= lo <= hi + 1 <= |s| && Rearranged(s, t, lo, hi) && AllAtLeast(s, lo, hi, v)
    ensures AllAtLeast(t, lo, hi, v)
  {
    forall k | lo <= k <= hi && 0 <= k < |t|
      ensures t[k] >= v
    {
      RearrangedFrom(s, t, lo, hi, k);
    }
  }

  /**
   * The recursion step: a partitioned range whose two sides are then
   * sorted in place is a sorted rearrangement of the original range.
   */
  lemma QuickStep(a0: seq<int>, a1: seq<int>, a2: seq<int>, a3: seq<int>, low: int, p: int, high: int)
    requires 0 <= low <= p <= high < |a0|
    requires Rearranged(a0, a1, low, high)
    requires AllBelow(a1, low, p - 1, a1[p]) && AllAtLeast(a1, p + 1, high, a1[p])
    requires Rearranged(a1, a2, low, p - 1) && SortedBetween(a2, low, p - 1)
    requires Rearranged(a2, a3, p + 1, high) && SortedBetween(a3, p + 1, high)
    ensures Rearranged(a0, a3, low, high) && SortedBetween(a3, low, high)
  {
    var v := a1[p];
    BelowKept(a1, a2, low, p - 1, v);
    AtLeastKept(a2, a3, p + 1, high, v);
    QuickStepRearranged(a0, a1, a2, a3, low, p, high);
    SortedJoin(a3, low, p, high);
  }

  lemma QuickStepRearranged(a0: seq<int>, a1: seq<int>, a2: seq<int>, a3: seq<int>, low: int, p: int, high: int)
    requires 0 <= low <= p <= high < |a0|
    requires Rearranged(a0, a1, low, high) && Rearranged(a1, a2, low, p - 1) && Rearranged(a2, a3, p + 1, high)
    ensures Rearranged(a0, a3, low, high) && a3[p] == a1[p]
    ensures forall k :: low <= k < p ==> a3[k] == a2[k]
  {
    RearrangedWiden(a1, a2, low, p - 1, low, high);
    RearrangedWiden(a2, a3, p + 1, high, low, high);
    RearrangedTrans(a0, a1, a2, low, high);
    RearrangedTrans(a0, a2, a3, low, high);
  }

  /** Two sorted sides around a value that splits them make one sorted range. */
  lemma SortedJoin(s: seq<int>, low: int, p: int, high: int)
    requires 0 <= low <= p <= high < |s|
    requires SortedBetween(s, low, p - 1) && SortedBetween(s, p + 1, high)
    requires AllBelow(s, low, p - 1, s[p]) && AllAtLeast(s, p + 1, high, s[p])
    ensures SortedBetween(s, low, high)
  {
  }

  lemma SortedWhole(s: seq<int>)
    requires SortedBetween(s, 0, |s| - 1)
    ensures IsSorted(s)
  {
    forall p, q | 0 <= p <= q < |s|
      ensures s[p] <= s[q]
    {
    }
  }

  // ----- events that keep the trace tidy -----

  method ShowQ(r: Run, pivot: int)
    requires r.Valid() && Tidy(r)
    modifies r
    ensures r.Valid() && Tidy(r) && r.a[..] == old(r.a[..])
    ensures r.comparisons == old(r.comparisons) && r.swaps == old(r.swaps) && r.sorted == old(r.sorted)
    ensures r.trace == old(r.trace) + [r.Snapshot([], [], pivot)]
  {
    ghost var t0 := r.trace;
    r.Show(pivot);
    RealExchangeAppend(t0, Last(r.trace));
    DistinctAppend(t0, Last(r.trace));
  }

  method CompareQ(r: Run, x: int, y: int, pivot: int)
    requires r.Valid() && Tidy(r) && 0 <= x < r.a.Length && 0 <= y < r.a.Length
    modifies r
    ensures r.Valid() && Tidy(r) && r.a[..] == old(r.a[..])
    ensures r.comparisons == old(r.comparisons) + 1 && r.swaps == old(r.swaps) && r.sorted == old(r.sorted)
    ensures r.trace == old(r.trace) + [r.Snapshot([x, y], [], pivot)]
  {
    ghost var t0 := r.trace;
    r.Compare(x, y, pivot);
    RealExchangeAppend(t0, Last(r.trace));
    DistinctAppend(t0, Last(r.trace));
  }

  method ExchangeQ(r: Run, x: int, y: int, pivot: int)
    requires r.Valid() && Tidy(r) && 0 <= x < r.a.Length && 0 <= y < r.a.Length && x != y
    modifies r, r.a
    ensures r.Valid() && Tidy(r) && r.a[..] == Exchanged(old(r.a[..]), x, y)
    ensures r.comparisons == old(r.comparisons) && r.swaps == old(r.swaps) + 1 && r.sorted == old(r.sorted)
    ensures r.trace == old(r.trace) + [r.Snapshot([], [x, y], pivot)]
  {
    ghost var t0 := r.trace;
    r.Exchange(x, y, pivot);
    RealExchangeAppend(t0, Last(r.trace));
    DistinctAppend(t0, Last(r.trace));
  }

  /** `sorted.push(k)` unless listed already, then a quiet yield. */
  method MarkPlaced(r: Run, k: int)
    requires r.Valid() && Tidy(r)
    modifies r
    ensures r.Valid() && Tidy(r) && r.a[..] == old(r.a[..])
    ensures r.comparisons == old(r.comparisons) && r.swaps == old(r.swaps)
    ensures r.sorted == old(r.sorted) + (if k in old(r.sorted) then [] else [k])
    ensures r.trace == old(r.trace) + [r.Snapshot([], [], NoPivot)]
  {
    if k !in r.sorted {
      NoDupPush(r.sorted, k);
      r.sorted := r.sorted + [k];
    }
    ShowQ(r, NoPivot);
  }

  // ----- partition -----

  /**
   * What one pass of the `for j` loop does to the array `s`: with
   * `s[low..i]` below `v` and `s[i+1..j-1]` not, a value below `v` at `j`
   * grows the low side by one (exchanged into place unless it is already
   * there), and any other value grows the high side.
   */
  lemma ScanAdvance(a0: seq<int>, s: seq<int>, t: seq<int>, low: int, high: int, v: int, i: int, i': int, j: int)
    requires 0 <= low <= j < high < |s| && low - 1 <= i < j && |a0| == |s|
    requires Rearranged(a0, s, low, high - 1)
    requires AllBelow(s, low, i, v) && AllAtLeast(s, i + 1, j - 1, v)
    requires i' == if s[j] < v then i + 1 else i
    requires t == if s[j] < v && i' != j then Exchanged(s, i', j) else s
    ensures Rearranged(a0, t, low, high - 1)
    ensures AllBelow(t, low, i', v) && AllAtLeast(t, i' + 1, j, v)
  {
    if s[j] < v && i' != j {
      ExchangeRearranges(s, low, high - 1, i', j);
      RearrangedTrans(a0, s, t, low, high - 1);
      ScanExchange(s, low, v, i, j);
    }
  }

  /** The exchanging case of `ScanAdvance`, on the bounds alone. */
  lemma ScanExchange(s: seq<int>, low: int, v: int, i: int, j: int)
    requires 0 <= low && low - 1 <= i && i + 1 < j < |s| && s[j] < v
    requires AllBelow(s, low, i, v) && AllAtLeast(s, i + 1, j - 1, v)
    ensures AllBelow(Exchanged(s, i + 1, j), low, i + 1, v)
    ensures AllAtLeast(Exchanged(s, i + 1, j), i + 2, j, v)
  {
    var t := Exchanged(s, i + 1, j);
    assert s[i + 1] >= v;
  }

  /**
   * One pass of the `for j` loop: compare `array[j]` with the pivot and,
   * when it is smaller, grow the low side by one (exchanging only when
   * `i !== j`). Stated against the array `a0` and counters `c0`, `w0`
   * at the start of the loop.
   */
  method ScanStep(r: Run, low: int, high: int, pivotValue: int, i: int, j: int,
                  ghost a0: seq<int>, ghost c0: nat, ghost w0: nat) returns (i': int)
    requires r.Valid() && Tidy(r) && 0 <= low <= j < high < r.a.Length && low - 1 <= i < j
    requires |a0| == r.a.Length && pivotValue == a0[high]
    requires Rearranged(a0, r.a[..], low, high - 1)
    requires AllBelow(r.a[..], low, i, pivotValue) && AllAtLeast(r.a[..], i + 1, j - 1, pivotValue)
    requires r.comparisons == c0 + (j - low)
    requires w0 <= r.swaps <= w0 + (i + 1 - low) && (i + 1 == j ==> r.swaps == w0)
    modifies r, r.a
    ensures r.Valid() && Tidy(r) && r.sorted == old(r.sorted) && i <= i' <= j
    ensures Rearranged(a0, r.a[..], low, high - 1)
    ensures AllBelow(r.a[..], low, i', pivotValue) && AllAtLeast(r.a[..], i' + 1, j, pivotValue)
    ensures r.comparisons == c0 + (j + 1 - low)
    ensures w0 <= r.swaps <= w0 + (i' + 1 - low) && (i' == j ==> r.swaps == w0)
    ensures i' == if old(r.a[j]) < pivotValue then i + 1 else i
    ensures var exchanged := old(r.a[j]) < pivotValue && i + 1 != j;
      r.swaps == old(r.swaps) + (if exchanged then 1 else 0) &&
      r.a[..] == (if exchanged then Exchanged(old(r.a[..]), i + 1, j) else old(r.a[..])) &&
      r.trace == old(r.trace)
        + [StepState(old(r.a[..]), [j, high], [], r.sorted, high, r.comparisons, old(r.swaps))]
        + (if exchanged then [StepState(r.a[..], [], [i + 1, j], r.sorted, high, r.comparisons, r.swaps)] else [])
  {
    CompareQ(r, j, high, high);
    ghost var s := r.a[..];
    i' := i;
    if r.a[j] < pivotValue {
      i' := i + 1;
      if i' != j {
        ExchangeQ(r, i', j, high);
      }
    }
    ScanAdvance(a0, s, r.a[..], low, high, pivotValue, i, i', j);
  }

  /**
   * The `for j` loop of `partition`. Afterwards `array[low..i]` is below
   * the pivot value and `array[i+1..high-1]` is not; the pivot itself is
   * still at `high`.
   */
  method PartitionScan(r: Run, low: int, high: int) returns (i: int)
    requires r.Valid() && Tidy(r) && 0 <= low < high < r.a.Length
    modifies r, r.a
    ensures r.Valid() && Tidy(r) && r.sorted == old(r.sorted) && low - 1 <= i < high
    ensures Rearranged(old(r.a[..]), r.a[..], low, high - 1)
    ensures AllBelow(r.a[..], low, i, old(r.a[high]))
    ensures AllAtLeast(r.a[..], i + 1, high - 1, old(r.a[high]))
    ensures r.comparisons == old(r.comparisons) + (high - low)
    ensures old(r.swaps) <= r.swaps <= old(r.swaps) + (i + 1 - low)
    ensures i + 1 == high ==> r.swaps == old(r.swaps)
  {
    var pivotValue := r.a[high];
    ghost var a0, c0, w0 := r.a[..], r.comparisons, r.swaps;
    i := low - 1;
    var j := low;
    while j < high
      invariant low <= j <= high && low - 1 <= i < j
      invariant r.Valid() && Tidy(r) && r.sorted == old(r.sorted)
      invariant Rearranged(a0, r.a[..], low, high - 1)
      invariant AllBelow(r.a[..], low, i, pivotValue) && AllAtLeast(r.a[..], i + 1, j - 1, pivotValue)
      invariant r.comparisons == c0 + (j - low)
      invariant w0 <= r.swaps <= w0 + (i + 1 - low) && (i + 1 == j ==> r.swaps == w0)
    {
      i := ScanStep(r, low, high, pivotValue, i, j, a0, c0, w0);
      j := j + 1;
    }
  }

  /**
   * What placing the pivot does to the array: exchanging `high` into
   * `p = i + 1` (or leaving it when they coincide) puts the pivot value
   * between the two sides.
   */
  lemma PivotPlaced(a0: seq<int>, s: seq<int>, t: seq<int>, low: int, high: int, i: int)
    requires 0 <= low < high < |s| && low - 1 <= i < high && |a0| == |s|
    requires Rearranged(a0, s, low, high - 1)
    requires AllBelow(s, low, i, a0[high]) && AllAtLeast(s, i + 1, high - 1, a0[high])
    requires t == if i + 1 != high then Exchanged(s, i + 1, high) else s
    ensures Rearranged(a0, t, low, high) && t[i + 1] == a0[high]
    ensures AllBelow(t, low, i, t[i + 1]) && AllAtLeast(t, i + 2, high, t[i + 1])
  {
    RearrangedWiden(a0, s, low, high - 1, low, high);
    if i + 1 != high {
      ExchangeRearranges(s, low, high, i + 1, high);
      RearrangedTrans(a0, s, t, low, high);
    }
  }

  /**
   * `newPivotPos = i + 1`, exchanged with `high` only when they differ:
   * the pivot value lands at `p`, everything left of it is smaller and
   * everything right of it is not.
   */
  method PlacePivot(r: Run, low: int, high: int, i: int, ghost a0: seq<int>) returns (p: int)
    requires r.Valid() && Tidy(r) && 0 <= low < high < r.a.Length && low - 1 <= i < high
    requires |a0| == r.a.Length && Rearranged(a0, r.a[..], low, high - 1)
    requires AllBelow(r.a[..], low, i, a0[high]) && AllAtLeast(r.a[..], i + 1, high - 1, a0[high])
    modifies r, r.a
    ensures r.Valid() && Tidy(r) && r.sorted == old(r.sorted) && p == i + 1
    ensures Rearranged(a0, r.a[..], low, high) && r.a[p] == a0[high]
    ensures AllBelow(r.a[..], low, p - 1, r.a[p]) && AllAtLeast(r.a[..], p + 1, high, r.a[p])
    ensures r.comparisons == old(r.comparisons)
    ensures r.swaps == old(r.swaps) + if p != high then 1 else 0
  {
    ghost var s := r.a[..];
    p := i + 1;
    if p != high {
      ExchangeQ(r, p, high, p);
    }
    PivotPlaced(a0, s, r.a[..], low, high, i);
  }

  /**
   * `partition(low, high)`: a pivot snapshot, exactly `high - low`
   * comparisons, the pivot placed at `p` with smaller values left of it
   * and the others right of it, `p` listed in `sorted`, and a final quiet
   * yield. Only `low..high` is rearranged; at most `high - low` exchanges
   * happen, each between two distinct indices.
   */
  method Partition(r: Run, low: int, high: int) returns (p: int)
    requires r.Valid() && Tidy(r) && 0 <= low < high < r.a.Length && Unmarked(r.sorted, low, high)
    modifies r, r.a
    ensures r.Valid() && Tidy(r) && low <= p <= high
    ensures Rearranged(old(r.a[..]), r.a[..], low, high) && r.a[p] == old(r.a[high])
    ensures AllBelow(r.a[..], low, p - 1, r.a[p]) && AllAtLeast(r.a[..], p + 1, high, r.a[p])
    ensures r.sorted == old(r.sorted) + [p]
    ensures r.comparisons == old(r.comparisons) + (high - low)
    ensures old(r.swaps) <= r.swaps <= old(r.swaps) + (high - low)
  {
    ghost var a0 := r.a[..];
    ShowQ(r, high);
    var i := PartitionScan(r, low, high);
    p := PlacePivot(r, low, high, i, a0);
    MarkPlaced(r, p);
  }

  // ----- recursion -----

  /**
   * `quickSortRecursive(low, high)`: afterwards `low..high` is a sorted
   * rearrangement of what it held, every index of the range has been
   * listed in `sorted` exactly once, and no more exchanges than
   * comparisons were made.
   */
  method QuickSortRange(r: Run, low: int, high: int)
    requires r.Valid() && Tidy(r) && 0 <= low <= high + 1 <= r.a.Length && Unmarked(r.sorted, low, high)
    modifies r, r.a
    ensures r.Valid() && Tidy(r)
    ensures Rearranged(old(r.a[..]), r.a[..], low, high) && SortedBetween(r.a[..], low, high)
    ensures Covers(r.sorted, old(r.sorted), low, high)
    ensures old(r.swaps) <= r.swaps && r.swaps - old(r.swaps) <= r.comparisons - old(r.comparisons)
    decreases high - low + 1, 1
  {
    if low < high {
      PartitionAndRecurse(r, low, high);
    } else if low == high && low !in r.sorted {
      MarkPlaced(r, low);
    }
  }

  method PartitionAndRecurse(r: Run, low: int, high: int)
    requires r.Valid() && Tidy(r) && 0 <= low < high < r.a.Length && Unmarked(r.sorted, low, high)
    modifies r, r.a
    ensures r.Valid() && Tidy(r)
    ensures Rearranged(old(r.a[..]), r.a[..], low, high) && SortedBetween(r.a[..], low, high)
    ensures Covers(r.sorted, old(r.sorted), low, high)
    ensures old(r.swaps) <= r.swaps && r.swaps - old(r.swaps) <= r.comparisons - old(r.comparisons)
    decreases high - low + 1, 0
  {
    ghost var a0, s0 := r.a[..], r.sorted;
    var p := Partition(r, low, high);
    ghost var a1, s1 := r.a[..], r.sorted;
    QuickSortRange(r, low, p - 1);
    ghost var a2, s2 := r.a[..], r.sorted;
    QuickSortRange(r, p + 1, high);
    QuickStep(a0, a1, a2, r.a[..], low, p, high);
  }

  /**
   * `quickSort(inputArray)`: the whole run. Every snapshot holds a
   * permutation of the input, the last one is sorted and lists every
   * index, every exchange moves two distinct indices, and no `sorted`
   * list ever names an index twice.
   */
  method QuickSort(input: seq<int>) returns (trace: seq<StepState>, outcome: Outcome)
    ensures WellFormed(input, trace) && Permutations(input, trace)
    ensures IsSorted(Last(trace).values) && Last(trace).sorted == Range(0, |input|)
    ensures RealExchanges(trace) && DistinctMarks(trace)
    ensures Last(trace).swaps <= Last(trace).comparisons
    ensures outcome.values == Last(trace).values
    ensures outcome.comparisons == Last(trace).comparisons && outcome.swaps == Last(trace).swaps
  {
    var r := new Run(input);
    QuickSortRange(r, 0, |input| - 1);
    ghost var t0 := r.trace;
    r.ShowAll(NoPivot);
    RealExchangeAppend(t0, Last(r.trace));
    RangeNoDup(0, |input|);
    DistinctAppend(t0, Last(r.trace));
    SortedWhole(r.a[..]);
    trace := r.trace;
    outcome := r.Result();
    ExchangesPermute(input, trace);
  }
}
