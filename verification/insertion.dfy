/**
 * Insertion sort as a step-producing generator (static/js/algorithms/insertionSort.js).
 */
module Insertion {
  import opened Snapshots
  import opened Stepper

  /**
   * `s` with `s[i]` moved left to position `j` and `s[j..i)` shifted one to
   * the right: what the exchanges of one insertion leave behind.
   */
  function Rotated(s: seq<int>, j: int, i: int): (r: seq<int>)
    requires 0 <= j <= i < |s|
    ensures |r| == |s|
  {
    s[..j] + [s[i]] + s[j..i] + s[i + 1..]
  }

  /** What `Rotated` holds at each index: the prefix, the moved value, the shifted run, the suffix. */
  lemma RotatedAt(s: seq<int>, j: int, i: int, k: int)
    requires 0 <= j <= i < |s| && 0 <= k < |s|
    ensures Rotated(s, j, i)[k] ==
      if k < j then s[k] else if k == j then s[i] else if k <= i then s[k - 1] else s[k]
  {
  }

  /** Moving nothing leaves the sequence as it was. */
  lemma RotatedNone(s: seq<int>, i: int)
    requires 0 <= i < |s|
    ensures Rotated(s, i, i) == s
  {
    assert s == s[..i] + [s[i]] + s[i + 1..];
  }

  /** Exchanging the moving value with its left neighbour moves it one step further. */
  lemma RotatedStep(s: seq<int>, j: int, i: int)
    requires 0 < j <= i < |s|
    ensures Exchanged(Rotated(s, j, i), j - 1, j) == Rotated(s, j - 1, i)
  {
    var x, y := Exchanged(Rotated(s, j, i), j - 1, j), Rotated(s, j - 1, i);
    forall k | 0 <= k < |s|
      ensures x[k] == y[k]
    {
      RotatedAt(s, j, i, k);
      RotatedAt(s, j - 1, i, k);
      RotatedAt(s, j, i, j - 1);
      RotatedAt(s, j, i, j);
    }
  }

  /** The shift only rearranges `s[0..i]` and leaves the rest alone. */
  lemma RotatedPermutesPrefix(s: seq<int>, j: int, i: int)
    requires 0 <= j <= i < |s|
    ensures multiset(Rotated(s, j, i)[..i + 1]) == multiset(s[..i + 1])
    ensures Rotated(s, j, i)[i + 1..] == s[i + 1..]
  {
    var r := Rotated(s, j, i);
    assert r[..i + 1] == s[..j] + [s[i]] + s[j..i];
    assert s[..i + 1] == s[..j] + s[j..i] + [s[i]];
  }

  /** Every value in `s[j..i)` is strictly greater than `s[i]`: the ones an insertion moves past. */
  ghost predicate ShiftedPast(s: seq<int>, j: int, i: int)
    requires 0 <= j <= i < |s|
  {
    forall q :: j <= q < i ==> s[q] > s[i]
  }

  /**
   * Inserting `s[i]` after the last element of the sorted `s[0..i)` that is
   * not greater than it, past all those that are, gives a sorted `s[0..i]`.
   */
  lemma {:induction false} RotatedSorted(s: seq<int>, j: int, i: int)
    requires 0 <= j <= i < |s| && OrderedThrough(s, i - 1)
    requires ShiftedPast(s, j, i)
    requires j > 0 ==> s[j - 1] <= s[i]
    ensures OrderedThrough(Rotated(s, j, i), i)
  {
    var r := Rotated(s, j, i);
    forall q | 0 <= q <= i
      ensures TopOf(r, q)
    {
      forall p | 0 <= p < q
        ensures r[p] <= r[q]
      {
        RotatedAt(s, j, i, p);
        RotatedAt(s, j, i, q);
        if q < j {
          assert TopOf(s, q);
        } else if q == j {
          assert TopOf(s, j - 1);
        } else if p < j {
          assert TopOf(s, q - 1);
        } else if p > j {
          assert TopOf(s, q - 1);
        }
      }
    }
  }

  /** In a sorted sequence no value before `s[i]` is greater than it, so nothing shifts. */
  lemma NoShiftWhenSorted(s: seq<int>, j: int, i: int)
    requires IsSorted(s) && 0 <= j <= i < |s|
    requires ShiftedPast(s, j, i)
    ensures j == i
  {
    if i > 0 {
      SortedAt(s, i - 1, i);
    }
  }

  /**
   * The `while (j > 0)` loop for position `i`: compare `array[j-1]` with
   * `array[j]`, exchange and step left while the left one is strictly
   * greater, stop at the first one that is not. Returns where the value
   * that started at `i` came to rest.
   */
  method ShiftLeft(r: Run, i: int) returns (j: int)
    requires r.Valid() && 1 <= i < r.a.Length && Disciplined(r.trace)
    modifies r, r.a
    ensures r.Valid() && r.sorted == old(r.sorted) && Disciplined(r.trace)
    ensures 0 <= j <= i && r.a[..] == Rotated(old(r.a[..]), j, i)
    ensures ShiftedPast(old(r.a[..]), j, i)
    ensures j > 0 ==> old(r.a[..])[j - 1] <= old(r.a[..])[i]
    ensures r.swaps == old(r.swaps) + (i - j)
    ensures r.comparisons == old(r.comparisons) + (i - j) + (if j > 0 then 1 else 0)
    ensures old(r.trace) != [] ==> r.trace != [] && r.trace[0] == old(r.trace[0])
  {
    ghost var s := r.a[..];
    RotatedNone(s, i);
    j := i;
    while j > 0
      invariant 0 <= j <= i
      invariant r.Valid() && r.sorted == old(r.sorted) && Disciplined(r.trace)
      invariant r.a[..] == Rotated(s, j, i)
      invariant ShiftedPast(s, j, i)
      invariant r.swaps == old(r.swaps) + (i - j)
      invariant r.comparisons == old(r.comparisons) + (i - j)
      invariant old(r.trace) != [] ==> r.trace != [] && r.trace[0] == old(r.trace[0])
    {
      var moved := ShiftStep(r, s, old(r.comparisons), old(r.swaps), j, i);
      if !moved {
        return;
      }
      j := j - 1;
    }
  }

  /**
   * One pass of the `while (j > 0)` body: compare the moving value, now at
   * `j`, with its left neighbour and exchange them when that one is greater.
   */
  method ShiftStep(r: Run, ghost s: seq<int>, ghost c0: int, ghost w0: int, j: int, i: int) returns (moved: bool)
    requires r.Valid() && 0 < j <= i < |s| && Disciplined(r.trace) && r.a[..] == Rotated(s, j, i)
    requires ShiftedPast(s, j, i) && r.comparisons == c0 + (i - j) && r.swaps == w0 + (i - j)
    modifies r, r.a
    ensures r.Valid() && r.sorted == old(r.sorted) && Disciplined(r.trace)
    ensures moved == (s[j - 1] > s[i])
    ensures moved ==> r.a[..] == Rotated(s, j - 1, i) && ShiftedPast(s, j - 1, i)
    ensures moved ==> r.comparisons == c0 + (i - (j - 1)) && r.swaps == w0 + (i - (j - 1))
    ensures !moved ==> r.a[..] == Rotated(s, j, i)
    ensures !moved ==> r.comparisons == c0 + (i - j) + 1 && r.swaps == w0 + (i - j)
    ensures old(r.trace) != [] ==> r.trace != [] && r.trace[0] == old(r.trace[0])
  {
    moved := CompareNeighbours(r, j - 1);
    if moved {
      RotatedStep(s, j, i);
    }
  }

  /**
   * One iteration `i` of the outer loop: shift `array[i]` into place, then
   * `sorted.push(i)` and a quiet snapshot.
   */
  method InsertAt(r: Run, i: int)
    requires r.Valid() && 1 <= i < r.a.Length && Disciplined(r.trace)
    requires OrderedThrough(r.a[..], i - 1)
    modifies r, r.a
    ensures r.Valid() && Disciplined(r.trace)
    ensures OrderedThrough(r.a[..], i)
    ensures multiset(r.a[..][..i + 1]) == multiset(old(r.a[..])[..i + 1]) && r.a[..][i + 1..] == old(r.a[..])[i + 1..]
    ensures r.sorted == old(r.sorted) + [i]
    ensures r.swaps >= old(r.swaps)
    ensures r.comparisons <= old(r.comparisons) + (r.swaps - old(r.swaps)) + 1
    ensures IsSorted(old(r.a[..])) ==> r.a[..] == old(r.a[..])
    ensures IsSorted(old(r.a[..])) ==> r.swaps == old(r.swaps) && r.comparisons == old(r.comparisons) + 1
    ensures old(r.trace) != [] ==> r.trace != [] && r.trace[0] == old(r.trace[0])
  {
    ghost var s := r.a[..];
    var j := ShiftLeft(r, i);
    RotatedSorted(s, j, i);
    RotatedPermutesPrefix(s, j, i);
    if IsSorted(s) {
      NoShiftWhenSorted(s, j, i);
      RotatedNone(s, i);
    }
    MarkInserted(r, i);
  }

  /**
   * The outer loop's invariant carried over iteration `i`; `a0`, `c0` and
   * `w0` are the array and the two counters before the loop began.
   */
  method InsertNext(r: Run, i: int, ghost a0: seq<int>, ghost c0: int, ghost w0: int)
    requires r.Valid() && 1 <= i < r.a.Length && Disciplined(r.trace)
    requires OrderedThrough(r.a[..], i - 1) && r.sorted == Range(0, i)
    requires r.swaps >= w0 && r.comparisons <= c0 + (r.swaps - w0) + (i - 1)
    requires IsSorted(a0) ==> r.a[..] == a0 && r.swaps == w0 && r.comparisons == c0 + (i - 1)
    modifies r, r.a
    ensures r.Valid() && Disciplined(r.trace)
    ensures OrderedThrough(r.a[..], i) && r.sorted == Range(0, i + 1)
    ensures r.swaps >= w0 && r.comparisons <= c0 + (r.swaps - w0) + i
    ensures IsSorted(a0) ==> r.a[..] == a0 && r.swaps == w0 && r.comparisons == c0 + i
    ensures old(r.trace) != [] ==> r.trace != [] && r.trace[0] == old(r.trace[0])
  {
    InsertAt(r, i);
    RangeSplit(0, i, i + 1);
  }

  /** `sorted.push(i)` and a quiet snapshot. */
  method MarkInserted(r: Run, i: int)
    requires r.Valid() && Disciplined(r.trace)
    modifies r
    ensures r.Valid() && Disciplined(r.trace)
    ensures r.sorted == old(r.sorted) + [i]
    ensures r.comparisons == old(r.comparisons) && r.swaps == old(r.swaps)
    ensures old(r.trace) != [] ==> r.trace != [] && r.trace[0] == old(r.trace[0])
  {
    r.sorted := r.sorted + [i];
    ghost var t0 := r.trace;
    r.Show(NoPivot);
    NeighbourAppend(t0, Last(r.trace));
  }

  /** The outer loop `for (i = 1; i < n; i++)`. */
  method InsertAll(r: Run)
    requires r.Valid() && Disciplined(r.trace) && r.sorted == [0]
    modifies r, r.a
    ensures r.Valid() && Disciplined(r.trace)
    ensures IsSorted(r.a[..])
    ensures r.sorted == Range(0, if r.a.Length == 0 then 1 else r.a.Length)
    ensures r.swaps >= old(r.swaps)
    ensures r.a.Length >= 1 ==>
      r.comparisons <= old(r.comparisons) + (r.swaps - old(r.swaps)) + (r.a.Length - 1)
    ensures IsSorted(old(r.a[..])) ==> r.swaps == old(r.swaps)
    ensures IsSorted(old(r.a[..])) ==>
      r.comparisons == old(r.comparisons) + (if r.a.Length == 0 then 0 else r.a.Length - 1)
    ensures old(r.trace) != [] ==> r.trace != [] && r.trace[0] == old(r.trace[0])
  {
    var n := r.a.Length;
    var i := 1;
    while i < n
      invariant 1 <= i && (i <= n || i == 1)
      invariant r.Valid() && Disciplined(r.trace)
      invariant OrderedThrough(r.a[..], i - 1)
      invariant r.sorted == Range(0, i)
      invariant r.swaps >= old(r.swaps)
      invariant r.comparisons <= old(r.comparisons) + (r.swaps - old(r.swaps)) + (i - 1)
      invariant IsSorted(old(r.a[..])) ==> r.a[..] == old(r.a[..])
      invariant IsSorted(old(r.a[..])) ==>
        r.swaps == old(r.swaps) && r.comparisons == old(r.comparisons) + (i - 1)
      invariant old(r.trace) != [] ==> r.trace != [] && r.trace[0] == old(r.trace[0])
    {
      InsertNext(r, i, old(r.a[..]), old(r.comparisons), old(r.swaps));
      i := i + 1;
    }
    assert OrderedThrough(r.a[..], n - 1);
  }

  method InsertionSort(input: seq<int>) returns (trace: seq<StepState>, outcome: Outcome)
    ensures WellFormed(input, trace) && Permutations(input, trace)
    ensures IsSorted(Last(trace).values)
    ensures NeighbourSwapping(trace)
    ensures trace[0] == StepState(input, [], [], [0], NoPivot, 0, 0)
    ensures Last(trace).sorted == Range(0, |input|)
    ensures |input| >= 1 ==> Last(trace).comparisons <= Last(trace).swaps + (|input| - 1)
    ensures IsSorted(input) && |input| >= 1 ==>
      Last(trace).comparisons == |input| - 1 && Last(trace).swaps == 0
    ensures outcome == Outcome(Last(trace).values, Last(trace).comparisons, Last(trace).swaps)
  {
    var r: Run := new Run(input);
    r.sorted := [0];
    r.Show(NoPivot);
    NeighbourAppend([], Last(r.trace));
    ghost var first := r.trace[0];
    InsertAll(r);
    ghost var t1 := r.trace;
    r.ShowAll(NoPivot);
    NeighbourAppend(t1, Last(r.trace));
    trace := r.trace;
    assert trace[0] == first;
    outcome := r.Result();
    ExchangesPermute(input, trace);
  }
}
