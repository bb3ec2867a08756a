/**
 * Heap sort (static/js/algorithms/heapSort.js): build a max-heap over the
 * whole array with `heapify`, then repeatedly exchange the root with the
 * last index of the heap, list that index in `sorted`, and sift the new
 * root down through the shrunken heap.
 */
module Heap {
  import opened Snapshots
  import opened Stepper
  import opened Rearrange

  /** The parent of a non-root node `k` (its children are `2k+1` and `2k+2`). */
  function Parent(k: int): int {
    (k - 1) / 2
  }

  /** Node `p` is at least every child of node `k` that lies inside the heap of size `size`. */
  ghost predicate Dominates(s: seq<int>, size: int, p: int, k: int)
    requires 0 <= p < |s| && 0 <= k && size <= |s|
  {
    (2 * k + 1 < size ==> s[p] >= s[2 * k + 1]) &&
    (2 * k + 2 < size ==> s[p] >= s[2 * k + 2])
  }

  /** Node `k` is at least its children inside the heap of size `size`. */
  ghost predicate HeapAt(s: seq<int>, size: int, k: int)
    requires 0 <= k < |s| && size <= |s|
  {
    Dominates(s, size, k, k)
  }

  /** Every node from `start` on keeps the max-heap order inside `s[0..size)`. */
  ghost predicate HeapFrom(s: seq<int>, size: int, start: int)
    requires 0 <= start && size <= |s|
  {
    forall k :: start <= k < size ==> HeapAt(s, size, k)
  }

  /**
   * What `heapify(size, i)` needs, with `start` the root of the call that
   * began the sift: every node from `start` on except `i` keeps the heap
   * order, and the parent of `i`, when it is one of those nodes, is at
   * least the children of `i`.
   */
  ghost predicate SiftReady(s: seq<int>, size: int, start: int, i: int)
    requires 0 <= start <= i < size <= |s|
  {
    (forall k :: start <= k < size && k != i ==> HeapAt(s, size, k)) &&
    (0 < i && start <= Parent(i) ==> Dominates(s, size, Parent(i), i))
  }

  /**
   * `m` is the earliest of node `i` and its children inside the heap that
   * holds their maximum: the comparisons use strict `>`, so a child wins
   * only when it is strictly larger.
   */
  ghost predicate Largest(s: seq<int>, size: int, i: int, m: int)
    requires 0 <= i < size <= |s|
  {
    (m == i || (m == 2 * i + 1 && m < size) || (m == 2 * i + 2 && m < size)) &&
    s[i] <= s[m] && (i < m ==> s[i] < s[m]) &&
    (2 * i + 1 < size ==> s[2 * i + 1] <= s[m] && (2 * i + 1 < m ==> s[2 * i + 1] < s[m])) &&
    (2 * i + 2 < size ==> s[2 * i + 2] <= s[m])
  }

  /** The element at `p` is at most the one at `q`. */
  ghost predicate InOrder(s: seq<int>, p: int, q: int)
    requires 0 <= p < |s| && 0 <= q < |s|
  {
    s[p] <= s[q]
  }

  /** Every element of `s[0..i]` is at most every element of `s[i+1..]`. */
  ghost predicate Split(s: seq<int>, i: int) {
    forall p, q :: 0 <= p <= i < q < |s| ==> InOrder(s, p, q)
  }

  /** `s[lo..]` is in ascending order. */
  ghost predicate SortedFrom(s: seq<int>, lo: int) {
    forall p, q :: 0 <= lo <= p <= q < |s| ==> InOrder(s, p, q)
  }

  /** The indices `hi-1, hi-2, ..., lo`: the order extraction lists them in `sorted`. */
  function Countdown(hi: int, lo: int): (r: seq<int>)
    ensures |r| == if lo <= hi then hi - lo else 0
    decreases hi - lo
  {
    if lo >= hi then [] else Countdown(hi, lo + 1) + [lo]
  }

  /** A countdown lists each index of `lo..hi-1` once, and nothing else. */
  lemma {:induction false} CountdownMembers(hi: int, lo: int)
    ensures forall k :: k in Countdown(hi, lo) <==> lo <= k < hi
    ensures NoDup(Countdown(hi, lo))
    decreases hi - lo
  {
    if lo < hi {
      CountdownMembers(hi, lo + 1);
      NoDupPush(Countdown(hi, lo + 1), lo);
    }
  }

  // ----- lemmas about the heap order -----

  lemma ParentOfChild(i: int, c: int)
    requires 0 <= i && (c == 2 * i + 1 || c == 2 * i + 2)
    ensures Parent(c) == i && 0 < c
  {
  }

  /** When neither child beats node `i`, the sift is over and the heap order holds from `start`. */
  lemma SiftDone(s: seq<int>, size: int, start: int, i: int)
    requires 0 <= start <= i < size <= |s|
    requires SiftReady(s, size, start, i) && Largest(s, size, i, i)
    ensures HeapFrom(s, size, start)
  {
    assert HeapAt(s, size, i);
  }

  /**
   * Exchanging node `i` with its larger child `c` repairs `i` and moves
   * the possible defect down to `c`.
   */
  lemma SiftSwap(s: seq<int>, size: int, start: int, i: int, c: int)
    requires 0 <= start <= i < c < size <= |s|
    requires SiftReady(s, size, start, i) && Largest(s, size, i, c)
    ensures SiftReady(Exchanged(s, i, c), size, start, c)
  {
    var t := Exchanged(s, i, c);
    ParentOfChild(i, c);
    assert HeapAt(s, size, c);
    forall k | start <= k < size && k != c
      ensures HeapAt(t, size, k)
    {
      if k == i {
        assert HeapAt(t, size, k);
      } else if 0 < i && k == Parent(i) {
        assert 2 * k + 1 == i || 2 * k + 2 == i;
        assert HeapAt(s, size, k);
      } else {
        assert HeapAt(s, size, k);
        assert 2 * k + 1 != i && 2 * k + 2 != i;
      }
    }
  }

  /** In a heap the root holds the maximum of the heap's elements. */
  lemma {:induction false} RootIsMax(s: seq<int>, size: int, k: int)
    requires 0 <= k < size <= |s| && HeapFrom(s, size, 0)
    ensures s[k] <= s[0]
    decreases k
  {
    if k > 0 {
      var p := Parent(k);
      assert HeapAt(s, size, p);
      assert 2 * p + 1 == k || 2 * p + 2 == k;
      RootIsMax(s, size, p);
    }
  }

  /** The nodes of the second half of an array have no children: the heap order holds there. */
  lemma LeavesAreHeaps(s: seq<int>)
    ensures HeapFrom(s, |s|, |s| / 2)
  {
  }

  /**
   * Moving the root to index `i` extends the sorted suffix by one and
   * leaves a heap of size `i` whose only possible defect is at its root.
   */
  lemma ExtractFacts(s: seq<int>, i: int)
    requires 0 < i < |s| && HeapFrom(s, i + 1, 0) && SortedFrom(s, i + 1) && Split(s, i)
    ensures SortedFrom(Exchanged(s, 0, i), i) && Split(Exchanged(s, 0, i), i - 1)
    ensures SiftReady(Exchanged(s, 0, i), i, 0, 0)
  {
    var t := Exchanged(s, 0, i);
    forall p, q | i <= p <= q < |t|
      ensures InOrder(t, p, q)
    {
      if p == i && q > i {
        assert InOrder(s, 0, q);
      } else if q > i {
        assert InOrder(s, p, q);
      }
    }
    forall p, q | 0 <= p <= i - 1 < q < |t|
      ensures InOrder(t, p, q)
    {
      var from := if p == 0 then i else p;
      if q == i {
        RootIsMax(s, i + 1, from);
      } else {
        assert InOrder(s, from, q);
      }
    }
    forall k | 0 < k < i
      ensures HeapAt(t, i, k)
    {
      assert HeapAt(s, i + 1, k);
    }
  }

  /** Sifting inside `0..i-1` keeps the suffix from `i` and the split at `i - 1`. */
  lemma SiftKeepsSuffix(s: seq<int>, t: seq<int>, i: int)
    requires 0 < i < |s| && SortedFrom(s, i) && Split(s, i - 1) && Rearranged(s, t, 0, i - 1)
    ensures SortedFrom(t, i) && Split(t, i - 1)
  {
    forall p, q | i <= p <= q < |t|
      ensures InOrder(t, p, q)
    {
      assert InOrder(s, p, q);
    }
    forall p, q | 0 <= p <= i - 1 < q < |t|
      ensures InOrder(t, p, q)
    {
      RearrangedFrom(s, t, 0, i - 1, p);
      var m :| 0 <= m <= i - 1 && t[p] == s[m];
      assert InOrder(s, m, q);
    }
  }

  lemma SortedAll(s: seq<int>)
    requires |s| > 0 ==> SortedFrom(s, 1) && Split(s, 0)
    ensures IsSorted(s)
  {
    forall p, q | 0 <= p <= q < |s|
      ensures s[p] <= s[q]
    {
      if p == 0 && q > 0 {
        assert InOrder(s, 0, q);
      } else if p > 0 {
        assert InOrder(s, p, q);
      }
    }
  }

  // ----- heapify -----

  /** `comparisons++` and yield `comparing: [x, y]`, keeping exchanges real. */
  method CompareH(r: Run, x: int, y: int)
    requires r.Valid() && RealExchanges(r.trace) && 0 <= x < r.a.Length && 0 <= y < r.a.Length
    modifies r
    ensures r.Valid() && RealExchanges(r.trace) && r.a[..] == old(r.a[..])
    ensures r.comparisons == old(r.comparisons) + 1 && r.swaps == old(r.swaps) && r.sorted == old(r.sorted)
    ensures r.trace == old(r.trace) + [r.Snapshot([x, y], [], NoPivot)]
  {
    ghost var t0 := r.trace;
    r.Compare(x, y, NoPivot);
    RealExchangeAppend(t0, Last(r.trace));
  }

  /** Exchange two distinct indices, `swaps++`, yield `swapped: [x, y]`. */
  method ExchangeH(r: Run, x: int, y: int)
    requires r.Valid() && RealExchanges(r.trace) && 0 <= x < r.a.Length && 0 <= y < r.a.Length && x != y
    modifies r, r.a
    ensures r.Valid() && RealExchanges(r.trace) && r.a[..] == Exchanged(old(r.a[..]), x, y)
    ensures r.comparisons == old(r.comparisons) && r.swaps == old(r.swaps) + 1 && r.sorted == old(r.sorted)
    ensures r.trace == old(r.trace) + [r.Snapshot([], [x, y], NoPivot)]
  {
    ghost var t0 := r.trace;
    r.Exchange(x, y, NoPivot);
    RealExchangeAppend(t0, Last(r.trace));
  }

  /**
   * The two guarded comparisons of `heapify`: the left child first, then
   * the right child against the winner so far, one comparison for each
   * child inside the heap.
   */
  method PickLargest(r: Run, size: int, i: int) returns (largest: int)
    requires r.Valid() && RealExchanges(r.trace) && 0 <= i < size <= r.a.Length
    modifies r
    ensures r.Valid() && RealExchanges(r.trace) && r.a[..] == old(r.a[..])
    ensures r.swaps == old(r.swaps) && r.sorted == old(r.sorted)
    ensures r.comparisons == old(r.comparisons) + (if 2 * i + 1 < size then 1 else 0) + (if 2 * i + 2 < size then 1 else 0)
    ensures Largest(r.a[..], size, i, largest)
    ensures var s := r.a[..];
      var winner := if 2 * i + 1 < size && s[2 * i + 1] > s[i] then 2 * i + 1 else i;
      largest == (if 2 * i + 2 < size && s[2 * i + 2] > s[winner] then 2 * i + 2 else winner) &&
      r.trace == old(r.trace)
        + (if 2 * i + 1 < size
           then [StepState(s, [i, 2 * i + 1], [], r.sorted, NoPivot, old(r.comparisons) + 1, r.swaps)] else [])
        + (if 2 * i + 2 < size
           then [StepState(s, [winner, 2 * i + 2], [], r.sorted, NoPivot, r.comparisons, r.swaps)] else [])
  {
    largest := i;
    var left := 2 * i + 1;
    var right := 2 * i + 2;
    if left < size {
      CompareH(r, largest, left);
      if r.a[left] > r.a[largest] {
        largest := left;
      }
    }
    if right < size {
      CompareH(r, largest, right);
      if r.a[right] > r.a[largest] {
        largest := right;
      }
    }
  }

  /**
   * `heapify(size, i)`: sift the value at `i` down until it is at least
   * both its children. Only `i..size-1` is rearranged, every exchange
   * moves two distinct indices, and each one is preceded by a comparison.
   */
  method Heapify(r: Run, size: int, i: int, ghost start: int)
    requires r.Valid() && RealExchanges(r.trace) && 0 <= start <= i < size <= r.a.Length
    requires SiftReady(r.a[..], size, start, i)
    modifies r, r.a
    ensures r.Valid() && RealExchanges(r.trace) && r.sorted == old(r.sorted)
    ensures HeapFrom(r.a[..], size, start)
    ensures Rearranged(old(r.a[..]), r.a[..], i, size - 1)
    ensures old(r.swaps) <= r.swaps && r.swaps - old(r.swaps) <= r.comparisons - old(r.comparisons)
    decreases size - i
  {
    var largest := PickLargest(r, size, i);
    if largest != i {
      ghost var s := r.a[..];
      SiftSwap(s, size, start, i, largest);
      ExchangeH(r, i, largest);
      ExchangeRearranges(s, i, size - 1, i, largest);
      ghost var t := r.a[..];
      Heapify(r, size, largest, start);
      RearrangedWiden(t, r.a[..], largest, size - 1, i, size - 1);
      RearrangedTrans(s, t, r.a[..], i, size - 1);
    } else {
      SiftDone(r.a[..], size, start, i);
    }
  }

  // ----- the two phases -----

  /** One pass of the build loop, stated against the array `a0` at its start. */
  method BuildStep(r: Run, i: int, ghost a0: seq<int>, ghost c0: nat, ghost w0: nat)
    requires r.Valid() && RealExchanges(r.trace) && 0 <= i < r.a.Length
    requires HeapFrom(r.a[..], r.a.Length, i + 1) && Rearranged(a0, r.a[..], 0, r.a.Length - 1)
    requires w0 <= r.swaps && r.swaps - w0 <= r.comparisons - c0
    modifies r, r.a
    ensures r.Valid() && RealExchanges(r.trace) && r.sorted == old(r.sorted)
    ensures HeapFrom(r.a[..], r.a.Length, i) && Rearranged(a0, r.a[..], 0, r.a.Length - 1)
    ensures w0 <= r.swaps && r.swaps - w0 <= r.comparisons - c0
  {
    ghost var s := r.a[..];
    Heapify(r, r.a.Length, i, i);
    RearrangedWiden(s, r.a[..], i, r.a.Length - 1, 0, r.a.Length - 1);
    RearrangedTrans(a0, s, r.a[..], 0, r.a.Length - 1);
  }

  /** The build loop `for (i = floor(n/2) - 1; i >= 0; i--) heapify(n, i)`. */
  method BuildHeap(r: Run)
    requires r.Valid() && RealExchanges(r.trace)
    modifies r, r.a
    ensures r.Valid() && RealExchanges(r.trace) && r.sorted == old(r.sorted)
    ensures HeapFrom(r.a[..], r.a.Length, 0)
    ensures Rearranged(old(r.a[..]), r.a[..], 0, r.a.Length - 1)
    ensures old(r.swaps) <= r.swaps && r.swaps - old(r.swaps) <= r.comparisons - old(r.comparisons)
  {
    ghost var a0, c0, w0 := r.a[..], r.comparisons, r.swaps;
    var n := r.a.Length;
    LeavesAreHeaps(a0);
    var i := n / 2 - 1;
    while i >= 0
      invariant -1 <= i < n
      invariant r.Valid() && RealExchanges(r.trace) && r.sorted == old(r.sorted)
      invariant HeapFrom(r.a[..], n, i + 1) && Rearranged(a0, r.a[..], 0, n - 1)
      invariant w0 <= r.swaps && r.swaps - w0 <= r.comparisons - c0
    {
      BuildStep(r, i, a0, c0, w0);
      i := i - 1;
    }
  }

  /**
   * One pass of the extraction loop: exchange the root with `i`
   * (unconditionally, one swap), list `i` in `sorted`, and sift the new
   * root down through the heap of size `i`. Stated against the array
   * `a0`, the swap count `w0` and the sift swaps `sifted` before it.
   */
  method ExtractStep(r: Run, i: int, ghost a0: seq<int>, ghost c0: nat, ghost w0: nat, ghost sifted: nat)
    returns (ghost sifted': nat)
    requires r.Valid() && RealExchanges(r.trace) && 0 < i < r.a.Length
    requires HeapFrom(r.a[..], i + 1, 0) && SortedFrom(r.a[..], i + 1) && Split(r.a[..], i)
    requires Rearranged(a0, r.a[..], 0, r.a.Length - 1)
    requires r.swaps == w0 + (r.a.Length - 1 - i) + sifted && c0 + sifted <= r.comparisons
    requires r.sorted == Countdown(r.a.Length, i + 1)
    modifies r, r.a
    ensures r.Valid() && RealExchanges(r.trace)
    ensures HeapFrom(r.a[..], i, 0) && SortedFrom(r.a[..], i) && Split(r.a[..], i - 1)
    ensures Rearranged(a0, r.a[..], 0, r.a.Length - 1)
    ensures r.swaps == w0 + (r.a.Length - i) + sifted' && c0 + sifted' <= r.comparisons
    ensures r.sorted == Countdown(r.a.Length, i)
  {
    ghost var s := r.a[..];
    ExtractFacts(s, i);
    ExchangeRearranges(s, 0, r.a.Length - 1, 0, i);
    r.sorted := r.sorted + [i];
    ExchangeH(r, 0, i);
    ghost var t := r.a[..];
    ghost var w := r.swaps;
    RearrangedTrans(a0, s, t, 0, r.a.Length - 1);
    Heapify(r, i, 0, 0);
    SiftKeepsSuffix(t, r.a[..], i);
    RearrangedWiden(t, r.a[..], 0, i - 1, 0, r.a.Length - 1);
    RearrangedTrans(a0, t, r.a[..], 0, r.a.Length - 1);
    sifted' := sifted + (r.swaps - w);
  }

  /**
   * The extraction loop `for (i = n - 1; i > 0; i--)`: afterwards the
   * array is sorted, `sorted` lists exactly `1..n-1`, and the swap count
   * grew by exactly `n - 1` root exchanges plus what the sifts exchanged.
   */
  method ExtractAll(r: Run) returns (ghost sifted: nat)
    requires r.Valid() && RealExchanges(r.trace) && HeapFrom(r.a[..], r.a.Length, 0) && r.sorted == []
    modifies r, r.a
    ensures r.Valid() && RealExchanges(r.trace)
    ensures IsSorted(r.a[..]) && Rearranged(old(r.a[..]), r.a[..], 0, r.a.Length - 1)
    ensures r.swaps == old(r.swaps) + (if r.a.Length > 0 then r.a.Length - 1 else 0) + sifted
    ensures old(r.comparisons) + sifted <= r.comparisons
    ensures r.sorted == Countdown(r.a.Length, 1)
  {
    ghost var a0, c0, w0 := r.a[..], r.comparisons, r.swaps;
    var n := r.a.Length;
    sifted := 0;
    var i := n - 1;
    while i > 0
      invariant -1 <= i < n && (n > 0 ==> 0 <= i)
      invariant r.Valid() && RealExchanges(r.trace)
      invariant HeapFrom(r.a[..], i + 1, 0) && SortedFrom(r.a[..], i + 1) && Split(r.a[..], i)
      invariant Rearranged(a0, r.a[..], 0, n - 1)
      invariant r.swaps == w0 + (n - 1 - i) + sifted && c0 + sifted <= r.comparisons
      invariant r.sorted == Countdown(n, i + 1)
    {
      sifted := ExtractStep(r, i, a0, c0, w0, sifted);
      i := i - 1;
    }
    SortedAll(r.a[..]);
  }

  /**
   * `heapSort(inputArray)`: the whole run. Every snapshot holds a
   * permutation of the input, every exchange moves two distinct indices,
   * the last snapshot is sorted and lists every index, and there are
   * never more swaps than comparisons plus the `n - 1` root exchanges.
   */
  method HeapSort(input: seq<int>) returns (trace: seq<StepState>, outcome: Outcome)
    ensures WellFormed(input, trace) && Permutations(input, trace) && RealExchanges(trace)
    ensures IsSorted(Last(trace).values) && Last(trace).sorted == Range(0, |input|)
    ensures Last(trace).swaps <= Last(trace).comparisons + (if |input| > 0 then |input| - 1 else 0)
    ensures outcome.values == Last(trace).values
    ensures outcome.comparisons == Last(trace).comparisons && outcome.swaps == Last(trace).swaps
  {
    var r := new Run(input);
    BuildHeap(r);
    ghost var sifted := ExtractAll(r);
    r.sorted := r.sorted + [0];
    ghost var t0 := r.trace;
    r.ShowAll(NoPivot);
    RealExchangeAppend(t0, Last(r.trace));
    trace := r.trace;
    outcome := r.Result();
    ExchangesPermute(input, trace);
  }
}
