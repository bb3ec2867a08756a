/**
 * Selection sort as a step-producing generator (static/js/algorithms/selectionSort.js).
 */
module Selection {
  import opened Snapshots
  import opened Stepper

  /** `s[p]` is at most every element after it. */
  ghost predicate PlacedAt(s: seq<int>, p: int) {
    0 <= p < |s| && forall q :: p < q < |s| ==> s[p] <= s[q]
  }

  /**
   * The first `i` positions hold their final values: each is at most every
   * element after it, so `s[0..i)` is sorted and bounds the rest from below.
   */
  ghost predicate Placed(s: seq<int>, i: int) {
    forall p :: 0 <= p < i ==> PlacedAt(s, p)
  }

  /** All but the last position placed means sorted. */
  lemma PlacedSorted(s: seq<int>)
    requires |s| >= 1 && Placed(s, |s| - 1)
    ensures IsSorted(s)
  {
    forall q | 0 <= q < |s|
      ensures TopOf(s, q)
    {
      forall p | 0 <= p < q
        ensures s[p] <= s[q]
      {
        assert PlacedAt(s, p);
      }
    }
  }

  /**
   * Among `s[i..j)`, index `m` holds the minimum and is its first occurrence:
   * everything before `m` in the range is strictly greater.
   */
  ghost predicate FirstMinimum(s: seq<int>, i: int, j: int, m: int) {
    0 <= i <= m < j <= |s| &&
    (forall q :: i <= q < j ==> s[m] <= s[q]) &&
    (forall q :: i <= q < m ==> s[m] < s[q])
  }

  /** Exchanging the first minimum of `s[i..)` into position `i` places one more position. */
  lemma {:induction false} PlaceMinimum(s: seq<int>, i: int, m: int)
    requires Placed(s, i) && FirstMinimum(s, i, |s|, m)
    ensures Placed(Exchanged(s, i, m), i + 1)
  {
    var u := Exchanged(s, i, m);
    forall p | 0 <= p < i + 1
      ensures PlacedAt(u, p)
    {
      if p < i {
        assert PlacedAt(s, p);
        forall q | p < q < |u|
          ensures u[p] <= u[q]
        {
          if q == i { assert u[q] == s[m]; } else if q == m { assert u[q] == s[i]; }
        }
      } else {
        forall q | p < q < |u|
          ensures u[p] <= u[q]
        {
          if q == m { assert u[q] == s[i]; }
        }
      }
    }
  }

  /**
   * The inner loop `for (j = i + 1; j < n; j++)`: compare `array[minIndex]`
   * with `array[j]` and move `minIndex` to `j` when `array[j]` is strictly smaller.
   */
  method ScanForMinimum(r: Run, i: int) returns (minIndex: int)
    requires r.Valid() && 0 <= i < r.a.Length && RealExchanges(r.trace)
    modifies r
    ensures r.Valid() && r.sorted == old(r.sorted) && RealExchanges(r.trace)
    ensures r.a[..] == old(r.a[..])
    ensures FirstMinimum(r.a[..], i, r.a.Length, minIndex)
    ensures r.comparisons == old(r.comparisons) + (r.a.Length - 1 - i)
    ensures r.swaps == old(r.swaps)
  {
    minIndex := i;
    var j := i + 1;
    while j < r.a.Length
      invariant i < j <= r.a.Length
      invariant r.Valid() && r.sorted == old(r.sorted) && RealExchanges(r.trace)
      invariant r.a[..] == old(r.a[..])
      invariant FirstMinimum(r.a[..], i, j, minIndex)
      invariant r.comparisons == old(r.comparisons) + (j - 1 - i)
      invariant r.swaps == old(r.swaps)
    {
      ghost var t0 := r.trace;
      r.Compare(minIndex, j, NoPivot);
      RealExchangeAppend(t0, Last(r.trace));
      if r.a[j] < r.a[minIndex] {
        minIndex := j;
      }
      j := j + 1;
    }
  }

  /**
   * One iteration `i` of the outer loop: find the first minimum of
   * `array[i..n)`, exchange it into position `i` unless it is already there,
   * push `i` to `sorted` and yield.
   */
  method SelectPosition(r: Run, i: int) returns (minIndex: int)
    requires r.Valid() && 0 <= i < r.a.Length - 1 && RealExchanges(r.trace)
    requires Placed(r.a[..], i)
    modifies r, r.a
    ensures r.Valid() && RealExchanges(r.trace)
    ensures Placed(r.a[..], i + 1)
    ensures FirstMinimum(old(r.a[..]), i, r.a.Length, minIndex)
    ensures minIndex != i ==> old(r.a[minIndex]) < old(r.a[i])
    ensures r.a[..] == Exchanged(old(r.a[..]), i, minIndex)
    ensures r.sorted == old(r.sorted) + [i]
    ensures r.comparisons == old(r.comparisons) + (r.a.Length - 1 - i)
    ensures r.swaps == old(r.swaps) + if minIndex == i then 0 else 1
  {
    ghost var s := r.a[..];
    minIndex := ScanForMinimum(r, i);
    PlaceMinimum(s, i, minIndex);
    if minIndex != i {
      ghost var t0 := r.trace;
      r.Exchange(i, minIndex, NoPivot);
      RealExchangeAppend(t0, Last(r.trace));
    } else {
      assert Exchanged(s, i, i) == s;
    }
    r.sorted := r.sorted + [i];
    ghost var t1 := r.trace;
    r.Show(NoPivot);
    RealExchangeAppend(t1, Last(r.trace));
  }

  /** The comparison count after `i` outer iterations, doubled: `(n-1) + (n-2) + ... + (n-i)`. */
  lemma ComparisonsStep(n: int, i: int, c: int)
    requires 2 * c == i * (2 * n - i - 1)
    ensures 2 * (c + (n - 1 - i)) == (i + 1) * (2 * n - (i + 1) - 1)
  {
  }

  /** After the last outer iteration `i = n-1` the count is `n(n-1)/2`. */
  lemma ComparisonsTotal(n: int, i: int, c: int)
    requires i == n - 1 && 2 * c == i * (2 * n - i - 1)
    ensures 2 * c == n * (n - 1)
  {
    assert 2 * n - i - 1 == n;
  }

  /** The outer loop `for (i = 0; i < n - 1; i++)`. */
  method SelectAll(r: Run)
    requires r.Valid() && r.trace == [] && r.sorted == []
    modifies r, r.a
    ensures r.Valid() && RealExchanges(r.trace)
    ensures r.a.Length >= 1 ==> IsSorted(r.a[..])
    ensures r.sorted == Range(0, r.a.Length - 1)
    ensures 2 * r.comparisons == r.a.Length * (r.a.Length - 1)
    ensures r.swaps <= if r.a.Length == 0 then 0 else r.a.Length - 1
  {
    var n := r.a.Length;
    var i := 0;
    while i < n - 1
      invariant 0 <= i && (i <= n - 1 || i == 0)
      invariant r.Valid() && RealExchanges(r.trace)
      invariant Placed(r.a[..], i)
      invariant r.sorted == Range(0, i)
      invariant 2 * r.comparisons == i * (2 * n - i - 1)
      invariant r.swaps <= i
    {
      ghost var c := r.comparisons;
      var _ := SelectPosition(r, i);
      ComparisonsStep(n, i, c);
      RangeSplit(0, i, i + 1);
      i := i + 1;
    }
    if n >= 1 {
      PlacedSorted(r.a[..]);
      ComparisonsTotal(n, i, r.comparisons);
    }
  }

  method SelectionSort(input: seq<int>) returns (trace: seq<StepState>, outcome: Outcome)
    ensures WellFormed(input, trace) && Permutations(input, trace) && RealExchanges(trace)
    ensures IsSorted(Last(trace).values)
    ensures Last(trace).sorted == if |input| == 0 then [-1] else Range(0, |input|)
    ensures 2 * Last(trace).comparisons == |input| * (|input| - 1)
    ensures Last(trace).swaps <= if |input| == 0 then 0 else |input| - 1
    ensures outcome == Outcome(Last(trace).values, Last(trace).comparisons, Last(trace).swaps)
  {
    var r: Run := new Run(input);
    SelectAll(r);
    r.sorted := r.sorted + [r.a.Length - 1];
    if r.a.Length >= 1 {
      RangeSplit(0, r.a.Length - 1, r.a.Length);
    }
    ghost var t1 := r.trace;
    r.Show(NoPivot);
    RealExchangeAppend(t1, Last(r.trace));
    trace := r.trace;
    outcome := r.Result();
    ExchangesPermute(input, trace);
  }
}
